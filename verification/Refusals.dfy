/** When a refused message leaves the registry of `native/iroh_discovery/src/lib.rs` as it was, exactly, against the
    promise of IROH_CAPABILITY_PROTOCOL.md that it always does. */
module Refusals {
  import opened Octets
  import opened Text
  import opened Cbor
  import opened Messages
  import opened Codec
  import opened Envelopes
  import opened Records
  import opened SequenceFile
  import opened Registry
  import opened RegistryRuns
  import Signing
  import Sizes
  import R = RateLimit
  import S = SequenceStore

  // ---------- the limiter ----------

  /** Consulting the limiter leaves a queue as it was exactly if it refuses, until the clock reaches its last value. */
  lemma CheckUnchanged(times: seq<U64>, now: U64)
    requires |times| <= R.RATE_LIMIT && now < R.U64_MAX
    ensures R.Check(times, now).times == times <==> !R.Check(times, now).admitted
  {
    hide R.Trim;
    var kept := R.Trim(times, now);
    R.TrimIsSuffix(times, now);
    if |kept| == R.RATE_LIMIT {
      assert kept == times;
    } else if |kept| + 1 == |times| {
      assert kept == times[1..];
      if kept + [now] == times {
        TradedIsNow(times, now);
      }
    }
  }

  /** Trading a queue's first time for `now` gives the same queue only if every time in it is `now`. */
  lemma {:induction false} TradedIsNow(times: seq<U64>, now: U64)
    requires times != [] && times == times[1..] + [now]
    ensures times[0] == now
    decreases |times|
  {
    if |times| > 1 {
      assert times[0] == times[1];
      assert times[1..] == times[1..][1..] + [now];
      TradedIsNow(times[1..], now);
    }
  }

  lemma CheckAtClockEnd(times: seq<U64>)
    ensures R.Check(times, R.U64_MAX) == R.Verdict(true, [R.U64_MAX])
  {
    R.TrimIsSuffix(times, R.U64_MAX);
  }

  // ---------- the disk ----------

  /** A refused message touches the disk if and only if its write was cut short after the rename, and without that it
      would have been accepted; then the file shows the watermarks it would have left. */
  lemma AcceptWrites(r: Registry, m: Message, name: Str, now: U64, fault: S.Fault)
    requires Accept(r, m, name, now, fault).result.Failure?
    ensures Accept(r, m, name, now, fault).registry
         == r.(disk := if fault == S.AfterRename && Accept(r, m, name, now, S.NoFault).result.Success?
                       then S.AtomicWrite(r.disk, Serialize(r.store[m.EndpointId() := m.Sequence()]), S.AfterRename)
                       else r.disk)
  {
    hide ValidAnnouncement, ValidWithdrawal, AcceptSequence;
    SequenceWrites(r, m.EndpointId(), m.Sequence(), fault);
  }

  lemma SequenceWrites(r: Registry, e: Id, n: U64, fault: S.Fault)
    ensures var o := AcceptSequence(r, e, n, fault);
            o.result.Failure? ==>
              o.registry == r.(disk := if fault == S.AfterRename && AcceptSequence(r, e, n, S.NoFault).result.Success?
                                       then S.AtomicWrite(r.disk, Serialize(r.store[e := n]), S.AfterRename)
                                       else r.disk)
  {
    hide Serialize;
  }

  /** The disk after a refusal. */
  function DiskAfter(crypto: Crypto, r: Registry, d: Incoming, now: U64, fault: S.Fault): (disk: S.Disk) {
    if fault == S.AfterRename && Admit(crypto, r, d.envelope, d.message, now, S.NoFault).result.Success?
    then S.AtomicWrite(r.disk, Serialize(r.store[d.message.EndpointId() := d.message.Sequence()]), S.AfterRename)
    else r.disk
  }

  /** Everything a refused message does: it can enrol its endpoint, bring that endpoint's limiter queue up to date, and
      leave on disk the watermarks of a write cut short. */
  lemma RefusalExact(crypto: Crypto, r: Registry, d: Incoming, now: U64, fault: S.Fault)
    requires Admit(crypto, r, d.envelope, d.message, now, fault).result.Failure?
    ensures Admit(crypto, r, d.envelope, d.message, now, fault).registry
         == r.(names := NamesAfter(crypto, r, d.envelope, d.message),
               rate := RateAfter(crypto, r, d.envelope, d.message, now),
               disk := DiskAfter(crypto, r, d, now, fault))
  {
    hide Gatekeep, Accept, NamesAfter, RateAfter, Serialize, S.AtomicWrite, Verified;
    GatekeepKeeps(crypto, r, d.envelope, d.message, now);
    var g := Gatekeep(crypto, r, d.envelope, d.message, now);
    if g.Passed? {
      AcceptWrites(g.registry, d.message, g.name, now, fault);
    }
  }

  // ---------- unchanged ----------

  /** The message stops before the limiter or the table could change: it is of another fleet, its endpoint is enrolled
      and over its rate, or its endpoint is unknown and does not enrol. */
  predicate Spared(crypto: Crypto, r: Registry, d: Incoming, now: U64) {
    var e := d.message.EndpointId();
    || d.message.FleetId() != r.fleetId
    || (if e in r.names then !R.Check(TimesOf(r, e), now).admitted else !Enrols(crypto, r, d.envelope, d.message))
  }

  lemma RateUnchanged(crypto: Crypto, r: Registry, d: Incoming, now: U64)
    requires |TimesOf(r, d.message.EndpointId())| <= R.RATE_LIMIT && now < R.U64_MAX
    requires d.message.EndpointId() in r.names
    ensures RateAfter(crypto, r, d.envelope, d.message, now) == r.rate <==> Spared(crypto, r, d, now)
  {
    hide R.Check, Enrols;
    var e := d.message.EndpointId();
    CheckUnchanged(TimesOf(r, e), now);
    var v := R.Check(TimesOf(r, e), now);
    if !v.admitted {
      NonEmptyWhenRefused(TimesOf(r, e), now);
    }
    assert r.rate[e := v.times][e] == v.times;
  }

  lemma NonEmptyWhenRefused(times: seq<U64>, now: U64)
    requires !R.Check(times, now).admitted
    ensures times != []
  {
  }

  lemma NamesUnchanged(crypto: Crypto, r: Registry, d: Incoming)
    ensures NamesAfter(crypto, r, d.envelope, d.message) == r.names <==> !Enrols(crypto, r, d.envelope, d.message)
  {
    hide Verified, ValidAnnouncement;
    if Enrols(crypto, r, d.envelope, d.message) {
      assert d.message.EndpointId() in NamesAfter(crypto, r, d.envelope, d.message);
    }
  }

  /** An accepted message was not spared, so a write cut short comes only with other changes. */
  lemma SparedIsRefused(crypto: Crypto, r: Registry, d: Incoming, now: U64)
    requires Spared(crypto, r, d, now)
    ensures Admit(crypto, r, d.envelope, d.message, now, S.NoFault).result.Failure?
  {
    hide Verified, R.Check, Accept, Enrols;
    GatekeepKeeps(crypto, r, d.envelope, d.message, now);
  }

  lemma QueueBounded(crypto: Crypto, s: System, e: Id)
    requires Reachable(crypto, s)
    ensures |TimesOf(s.registry, e)| <= R.RATE_LIMIT
  {
    hide Reachable;
    TablesBounded(crypto, s);
  }

  /** Until the clock reaches its last value, a refused message leaves the registry as it was if and only if it does
      not decode, is of another fleet, is of an enrolled endpoint that is over its rate, or is of an unknown endpoint
      and does not enrol it. */
  lemma RefusalUnchanged(crypto: Crypto, s: System, bytes: Octets, now: U64, fault: S.Fault)
    requires Reachable(crypto, s) && now < R.U64_MAX
    requires Receive(crypto, s.registry, bytes, now, fault).result.Failure?
    ensures Receive(crypto, s.registry, bytes, now, fault).registry == s.registry
       <==> (Decoded(crypto, bytes).Success? ==> Spared(crypto, s.registry, Decoded(crypto, bytes).value, now))
  {
    hide Reachable, Decoded, Admit, NamesAfter, RateAfter, DiskAfter, Enrols, R.Check;
    if Decoded(crypto, bytes).Success? {
      var r, d := s.registry, Decoded(crypto, bytes).value;
      RefusalExact(crypto, r, d, now, fault);
      NamesUnchanged(crypto, r, d);
      QueueBounded(crypto, s, d.message.EndpointId());
      if Spared(crypto, r, d, now) {
        DiskSpared(crypto, r, d, now, fault);
      }
      if d.message.EndpointId() in r.names {
        RateUnchanged(crypto, r, d, now);
        KnownStays(crypto, r, d);
      } else {
        UnknownRate(crypto, r, d, now);
      }
    }
  }

  lemma KnownStays(crypto: Crypto, r: Registry, d: Incoming)
    requires d.message.EndpointId() in r.names
    ensures !Enrols(crypto, r, d.envelope, d.message)
  {
  }

  lemma UnknownRate(crypto: Crypto, r: Registry, d: Incoming, now: U64)
    requires d.message.EndpointId() !in r.names
    ensures !Enrols(crypto, r, d.envelope, d.message) ==> RateAfter(crypto, r, d.envelope, d.message, now) == r.rate
    ensures Enrols(crypto, r, d.envelope, d.message) ==> d.message.FleetId() == r.fleetId
  {
  }

  lemma DiskSpared(crypto: Crypto, r: Registry, d: Incoming, now: U64, fault: S.Fault)
    requires Spared(crypto, r, d, now)
    ensures DiskAfter(crypto, r, d, now, fault) == r.disk
  {
    hide Spared;
    SparedIsRefused(crypto, r, d, now);
  }

  // ---------- at the last value of the clock ----------

  /** At the last value of the clock every queue is cut back to the new admission. So a message of an enrolled endpoint
      is spared if the queue is that already, and no write was cut short or one like it was before. */
  predicate SparedAtEnd(crypto: Crypto, r: Registry, d: Incoming, fault: S.Fault) {
    var e := d.message.EndpointId();
    || d.message.FleetId() != r.fleetId
    || (if e in r.names then e in r.rate && r.rate[e] == [R.U64_MAX] && WrittenBefore(crypto, r, d, fault)
        else !Enrols(crypto, r, d.envelope, d.message))
  }

  predicate WrittenBefore(crypto: Crypto, r: Registry, d: Incoming, fault: S.Fault) {
    fault == S.AfterRename && Admit(crypto, r, d.envelope, d.message, R.U64_MAX, S.NoFault).result.Success?
    ==> r.disk.visible == Serialize(r.store[d.message.EndpointId() := d.message.Sequence()])
  }

  lemma DiskKept(crypto: Crypto, r: Registry, d: Incoming, fault: S.Fault)
    requires r.disk.visible in r.disk.survivors
    ensures DiskAfter(crypto, r, d, R.U64_MAX, fault) == r.disk <==> WrittenBefore(crypto, r, d, fault)
  {
    hide Admit, Serialize;
    var bytes := Serialize(r.store[d.message.EndpointId() := d.message.Sequence()]);
    if r.disk.visible == bytes {
      assert r.disk.survivors + {bytes} == r.disk.survivors;
    }
  }

  lemma RateAtEnd(crypto: Crypto, r: Registry, d: Incoming)
    requires d.message.EndpointId() in r.names && d.message.FleetId() == r.fleetId
    ensures RateAfter(crypto, r, d.envelope, d.message, R.U64_MAX) == r.rate
       <==> d.message.EndpointId() in r.rate && r.rate[d.message.EndpointId()] == [R.U64_MAX]
  {
    hide R.Check, Enrols;
    var e := d.message.EndpointId();
    CheckAtClockEnd(TimesOf(r, e));
    assert r.rate[e := [R.U64_MAX]][e] == [R.U64_MAX];
  }

  lemma FileVisible(crypto: Crypto, s: System)
    requires Reachable(crypto, s)
    ensures s.registry.disk.visible in s.registry.disk.survivors
  {
    hide Reachable, StoreOk, RecordsOk, RateOk, Table;
    ReachableInv(crypto, s);
    VisibleSurvives(crypto, s.registry.store, s.registry.disk, s.accepted);
  }

  /** A message that does not get past the gate leaves the disk alone. */
  lemma DiskUntouched(crypto: Crypto, r: Registry, d: Incoming, now: U64, fault: S.Fault)
    requires d.message.FleetId() != r.fleetId
          || (d.message.EndpointId() !in r.names && !Enrols(crypto, r, d.envelope, d.message))
    ensures DiskAfter(crypto, r, d, now, fault) == r.disk
  {
    hide R.Check, Enrols;
    DiskSpared(crypto, r, d, now, fault);
  }

  lemma ForeignStays(crypto: Crypto, r: Registry, d: Incoming, now: U64)
    requires d.message.FleetId() != r.fleetId
    ensures !Enrols(crypto, r, d.envelope, d.message) && RateAfter(crypto, r, d.envelope, d.message, now) == r.rate
  {
  }

  /** The same at the last value of the clock, where the limiter admits everything. */
  lemma RefusalUnchangedAtClockEnd(crypto: Crypto, s: System, bytes: Octets, fault: S.Fault)
    requires Reachable(crypto, s)
    requires Receive(crypto, s.registry, bytes, R.U64_MAX, fault).result.Failure?
    ensures Receive(crypto, s.registry, bytes, R.U64_MAX, fault).registry == s.registry
       <==> (Decoded(crypto, bytes).Success? ==> SparedAtEnd(crypto, s.registry, Decoded(crypto, bytes).value, fault))
  {
    hide Reachable, Decoded, Admit, NamesAfter, RateAfter, DiskAfter, Enrols, WrittenBefore;
    if Decoded(crypto, bytes).Success? {
      var r, d := s.registry, Decoded(crypto, bytes).value;
      RefusalExact(crypto, r, d, R.U64_MAX, fault);
      NamesUnchanged(crypto, r, d);
      FileVisible(crypto, s);
      DiskKept(crypto, r, d, fault);
      if d.message.FleetId() != r.fleetId {
        ForeignStays(crypto, r, d, R.U64_MAX);
        DiskUntouched(crypto, r, d, R.U64_MAX, fault);
      } else if d.message.EndpointId() in r.names {
        RateAtEnd(crypto, r, d);
        KnownStays(crypto, r, d);
      } else {
        UnknownRate(crypto, r, d, R.U64_MAX);
        if !Enrols(crypto, r, d.envelope, d.message) {
          DiskUntouched(crypto, r, d, R.U64_MAX, fault);
        }
      }
    }
  }

  // ---------- forgeries ----------

  /** A message whose signature does not verify leaves the registry as it was if and only if it is of another fleet, its
      endpoint is not enrolled, or that endpoint is over its rate: otherwise the forgery is charged to it. */
  lemma ForgeryUnchanged(crypto: Crypto, s: System, bytes: Octets, now: U64, fault: S.Fault)
    requires Reachable(crypto, s) && now < R.U64_MAX && Decoded(crypto, bytes).Success?
    requires var d := Decoded(crypto, bytes).value; !Verified(crypto, d.envelope, d.message)
    ensures var o := Receive(crypto, s.registry, bytes, now, fault);
            var m := Decoded(crypto, bytes).value.message;
            && o.result.Failure?
            && (o.registry == s.registry
                <==> || m.FleetId() != s.registry.fleetId || m.EndpointId() !in s.registry.names
                     || !R.Check(TimesOf(s.registry, m.EndpointId()), now).admitted)
  {
    hide Reachable, Decoded, Admit, Verified, R.Check;
    var d := Decoded(crypto, bytes).value;
    Signing.UnverifiedRefused(crypto, s.registry, d.envelope, d.message, now, fault);
    RefusalUnchanged(crypto, s, bytes, now, fault);
  }

  /** A withdrawal's bytes under any signature. */
  function Forged(w: Withdrawal, signature: Signature): (env: Envelope)
    requires ValidWithdrawal(w)
  {
    Sizes.ValidMessageBounded(Withdraw(w));
    Envelope(EncodeMessage(Withdraw(w)), signature)
  }

  lemma ForgedDecodes(crypto: Crypto, w: Withdrawal, signature: Signature)
    requires crypto.validKey(w.endpointId) && ValidWithdrawal(w)
    ensures Decoded(crypto, EncodeEnvelope(Forged(w, signature)))
         == Success(Incoming(Forged(w, signature), Withdraw(w)))
  {
    hide EncodeMessage, EncodeEnvelope, DecodeMessage, DecodeEnvelope;
    var m, env := Withdraw(w), Forged(w, signature);
    Sizes.ValidMessageBounded(m);
    Sizes.EnvelopeSize(env);
    EnvelopeExact(EncodeEnvelope(env), env);
    MessageExact(crypto, EncodeMessage(m), m);
  }

  /** A forged withdrawal of an endpoint that is enrolled and has no queue starts one. */
  lemma ForgeryCharged(crypto: Crypto, r: Registry, w: Withdrawal, signature: Signature, now: U64, fault: S.Fault)
    requires crypto.validKey(w.endpointId) && ValidWithdrawal(w)
    requires !Verified(crypto, Forged(w, signature), Withdraw(w))
    requires w.endpointId in r.names && w.endpointId !in r.rate && w.fleetId == r.fleetId
    ensures Receive(crypto, r, EncodeEnvelope(Forged(w, signature)), now, fault)
         == Outcome(Failure(InvalidSignature), r.(rate := r.rate[w.endpointId := [now]]))
  {
    hide Decoded, EncodeEnvelope, Forged, Verified;
    ForgedDecodes(crypto, w, signature);
    assert R.Check([], now) == R.Verdict(true, [now]);
  }

  /** So a refused message can change the registry: a new one that has enrolled an endpoint is sent a withdrawal in the
      endpoint's name under a signature that does not verify. */
  lemma ForgeryExample(crypto: Crypto, w: Withdrawal, name: Str, policy: Policy, signature: Signature, now: U64)
      returns (s: System)
    requires crypto.validKey(w.endpointId) && ValidWithdrawal(w) && ValidNodeName(name)
    requires !Verified(crypto, Forged(w, signature), Withdraw(w))
    ensures Reachable(crypto, s) && w.endpointId in s.registry.names
    ensures var o := Receive(crypto, s.registry, EncodeEnvelope(Forged(w, signature)), now, S.NoFault);
            o.result == Failure(InvalidSignature) && o.registry != s.registry
  {
    hide Receive, EncodeEnvelope, Forged, Verified, Reachable, ValidNodeName;
    var names, disk := map[w.endpointId := name], S.Disk([], {[]});
    s := System(Registry(w.fleetId, names, policy, map[], disk, map[], map[]), now, map[], []);
    NewIsReachable(crypto, w.fleetId, names, policy, disk, now);
    ForgeryCharged(crypto, s.registry, w, signature, now, S.NoFault);
    assert w.endpointId in s.registry.rate[w.endpointId := [now]];
  }
}
