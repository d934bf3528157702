/** `Registry` of `native/iroh_discovery/src/lib.rs` as the object it is, over its store object: each method is proved
    against the operation on values of `Registry`. */
module LiveRegistry {
  import opened Octets
  import opened Text
  import opened Cbor
  import opened Messages
  import opened Codec
  import opened Envelopes
  import opened Records
  import opened SequenceFile
  import opened FileStore
  import R = RateLimit
  import S = SequenceStore
  import V = Registry
  import Readers
  import RegistryRuns

  datatype Peer = Peer(
    endpointId: Id, nodeName: Str, partisanIp: Address, partisanPort: Port, sequence: U64, capabilities: Capabilities)

  function PeerOf(a: Announcement): (p: Peer) {
    Peer(a.endpointId, a.nodeName, a.partisanIp, a.partisanPort, a.sequence, a.capabilities)
  }

  /** A peer has the address, the sequence and the capabilities that were announced. */
  predicate Describes(p: Peer, a: Announcement) {
    && p.endpointId == a.endpointId && p.nodeName == a.nodeName && p.partisanIp == a.partisanIp
    && p.partisanPort == a.partisanPort && p.sequence == a.sequence && p.capabilities == a.capabilities
  }

  function Peers(list: seq<Announcement>): (r: seq<Peer>)
    ensures |r| == |list| && forall i :: 0 <= i < |list| ==> r[i] == PeerOf(list[i])
  {
    seq(|list|, i requires 0 <= i < |list| => PeerOf(list[i]))
  }

  class LiveRegistry {
    const fleetId: Id
    const policy: V.Policy
    const store: FileSequenceStore
    var names: map<Id, Str>
    var records: map<Id, V.Active>
    var rate: map<Id, seq<U64>>

    constructor (fleetId: Id, names: map<Id, Str>, policy: V.Policy, store: FileSequenceStore)
      ensures this.store == store
      ensures View() == V.Registry(fleetId, names, policy, store.sequences, store.disk, map[], map[])
    {
      this.fleetId := fleetId;
      this.policy := policy;
      this.store := store;
      this.names := names;
      records := map[];
      rate := map[];
    }

    ghost function View(): (r: V.Registry)
      reads this, store
    {
      V.Registry(fleetId, names, policy, store.sequences, store.disk, records, rate)
    }

    method Authorize(e: Id, name: Str) returns (r: Result<()>)
      modifies this`names
      ensures V.Outcome(r, View()) == V.Authorize(old(View()), e, name)
    {
      if !ValidNodeName(name) || (e !in names && |names| == MAX_AUTHORIZED) {
        return Failure(InvalidRecord);
      }
      names := names[e := name];
      r := Success(());
    }

    method Revoke(e: Id)
      modifies this
      ensures View() == V.Revoke(old(View()), e)
    {
      names := names - {e};
      records := records - {e};
      rate := rate - {e};
    }

    /** `check_rate`: expired times leave the front of the queue one by one. */
    method CheckRate(e: Id, now: U64) returns (r: Result<()>)
      modifies this`rate
      ensures var v := R.Check(V.TimesOf(old(View()), e), now);
              rate == old(rate)[e := v.times] && r == if v.admitted then Success(()) else Failure(RateLimited)
    {
      var times: seq<U64> := if e in rate then rate[e] else [];
      while |times| > 0 && R.SaturatingAdd(times[0], R.RATE_WINDOW_MS) <= now
        invariant R.Trim(times, now) == R.Trim(V.TimesOf(old(View()), e), now)
        decreases |times|
      {
        times := times[1..];
      }
      if |times| == R.RATE_LIMIT {
        rate := rate[e := times];
        return Failure(RateLimited);
      }
      rate := rate[e := times + [now]];
      r := Success(());
    }

    method AcceptSequence(e: Id, n: U64, fault: S.Fault) returns (r: Result<()>)
      modifies store
      ensures V.Outcome(r, View()) == V.AcceptSequence(old(View()), e, n, fault)
    {
      hide S.Advance;
      var watermark := store.Load(e);
      if n <= watermark {
        return Failure(StaleSequence);
      }
      r := store.Advance(e, n, fault);
    }

    /** The closing match of `receive`. */
    method Accept(m: Message, name: Str, now: U64, fault: S.Fault) returns (r: Result<()>)
      modifies this`records, store
      ensures V.Outcome(r, View()) == V.Accept(old(View()), m, name, now, fault)
    {
      hide V.AcceptSequence, ValidAnnouncement;
      var e := m.EndpointId();
      match m {
        case Announce(a) =>
          if !ValidAnnouncement(a) {
            return Failure(InvalidRecord);
          }
          if a.nodeName != name {
            return Failure(UnauthorizedEndpoint);
          }
          r := AcceptSequence(e, a.sequence, fault);
          if r.Success? {
            records := records[e := V.Active(a, now)];
          }
        case Withdraw(w) =>
          if !ValidWithdrawal(w) {
            return Failure(InvalidRecord);
          }
          r := AcceptSequence(e, w.sequence, fault);
          if r.Success? {
            records := records - {e};
          }
      }
    }

    /** The limiter and signature check of an enrolled endpoint. */
    method AdmitKnown(crypto: Crypto, env: Envelope, m: Message, now: U64, fault: S.Fault) returns (r: Result<()>)
      requires m.FleetId() == fleetId && m.EndpointId() in names
      modifies this, store
      ensures V.Outcome(r, View()) == V.Admit(crypto, old(View()), env, m, now, fault)
    {
      hide V.Accept, V.Verified, R.Check;
      var e := m.EndpointId();
      var name := names[e];
      r := CheckRate(e, now);
      if r.Failure? {
        return;
      }
      if !V.Verified(crypto, env, m) {
        return Failure(InvalidSignature);
      }
      r := Accept(m, name, now, fault);
    }

    /** The enrolment of an unknown endpoint. */
    method AdmitNewcomer(crypto: Crypto, env: Envelope, m: Message, now: U64, fault: S.Fault) returns (r: Result<()>)
      requires m.FleetId() == fleetId && m.EndpointId() !in names && policy == V.SignedFleet
      modifies this, store
      ensures V.Outcome(r, View()) == V.Admit(crypto, old(View()), env, m, now, fault)
    {
      hide V.Accept, V.Verified, R.Check, V.Authorize, ValidAnnouncement;
      var e := m.EndpointId();
      if !V.Verified(crypto, env, m) {
        return Failure(InvalidSignature);
      }
      if !m.Announce? {
        return Failure(UnauthorizedEndpoint);
      }
      var a := m.announcement;
      if !ValidAnnouncement(a) {
        return Failure(InvalidRecord);
      }
      AuthorizeRefusal(View(), e, a.nodeName);
      r := Authorize(e, a.nodeName);
      if r.Failure? {
        return;
      }
      r := CheckRate(e, now);
      if r.Failure? {
        return;
      }
      r := Accept(m, a.nodeName, now, fault);
    }

    method Receive(crypto: Crypto, bytes: Octets, now: U64, fault: S.Fault) returns (r: Result<()>)
      modifies this, store
      ensures V.Outcome(r, View()) == V.Receive(crypto, old(View()), bytes, now, fault)
    {
      hide V.Known, V.Newcomer, V.Accept, DecodeEnvelope, DecodeMessage;
      if |bytes| > V.MAX_MESSAGE_SIZE {
        return Failure(MessageTooLarge);
      }
      var env := Readers.Open(bytes);
      if env.Failure? {
        return Failure(env.error);
      }
      var message := Readers.Decode(crypto, env.value.body);
      if message.Failure? {
        return Failure(message.error);
      }
      var m := message.value;
      if m.FleetId() != fleetId {
        return Failure(WrongFleet);
      }
      if m.EndpointId() in names {
        r := AdmitKnown(crypto, env.value, m, now, fault);
      } else if policy == V.Strict {
        r := Failure(UnauthorizedEndpoint);
      } else {
        r := AdmitNewcomer(crypto, env.value, m, now, fault);
      }
    }

    /** `retain` on the records. */
    method Expire(now: U64)
      modifies this`records
      ensures View() == V.Expire(old(View()), now)
    {
      var kept: map<Id, V.Active>, pending := map[], records.Keys;
      while pending != {}
        invariant pending <= records.Keys
        invariant forall e :: e in kept <==> e in records && e !in pending && V.Live(records[e], now)
        invariant forall e :: e in kept ==> kept[e] == records[e]
        decreases |pending|
      {
        var e :| e in pending;
        if V.Live(records[e], now) {
          kept := kept[e := records[e]];
        }
        pending := pending - {e};
      }
      records := kept;
      assert records == V.Expire(old(View()), now).records;
    }

    method FindActive(e: Id, now: U64) returns (r: Option<Announcement>)
      modifies this`records
      ensures View() == V.Expire(old(View()), now)
      ensures r == if e in old(records) && V.Live(old(records)[e], now) then Some(old(records)[e].announcement)
                   else None
    {
      Expire(now);
      r := if e in records then Some(records[e].announcement) else None;
    }

    /** Records are filed under their own endpoint and have a load that can be ranked. */
    ghost predicate Filed()
      reads this
    {
      forall e :: e in records ==> records[e].announcement.endpointId == e && Ranked(records[e].announcement.load)
    }

    /** The filter and sort of `find`, over the records in whatever order the hash map yields them. */
    method Rank(ps: seq<Predicate>, now: U64) returns (list: seq<Announcement>)
      requires Filed() && forall e :: e in records ==> V.Live(records[e], now)
      ensures RegistryRuns.IsAnswer(View(), ps, now, list)
    {
      hide Before, Eligible;
      list := [];
      var pending := records.Keys;
      while pending != {}
        invariant pending <= records.Keys
        invariant AllRanked(list) && Ascending(list)
        invariant forall a :: a in list <==> RegistryRuns.Selects(View(), ps, now, a) && a.endpointId !in pending
        decreases |pending|
      {
        var e :| e in pending;
        var a := records[e].announcement;
        assert forall i :: 0 <= i < |list| ==> list[i] in list;
        if Eligible(a, ps) {
          InsertMembers(list, a);
          InsertAscends(list, a);
          list := Insert(list, a);
        }
        pending := pending - {e};
      }
    }

    /** `find`. */
    method Find(ps: seq<Predicate>, now: U64) returns (r: Result<seq<Peer>>, ghost list: seq<Announcement>)
      requires Filed()
      modifies this`records
      ensures View() == V.Expire(old(View()), now) && Filed()
      ensures RegistryRuns.IsAnswer(old(View()), ps, now, list)
      ensures r.Failure? <==> list == []
      ensures r.Failure? ==> r.error == NoMatchingPeer
      ensures r.Success? ==> |r.value| == |list| && forall i :: 0 <= i < |list| ==> Describes(r.value[i], list[i])
    {
      hide V.Live, RegistryRuns.IsAnswer;
      ghost var before := View();
      Expire(now);
      var matches := Rank(ps, now);
      RegistryRuns.AnswerAfterPurge(before, ps, now, now, matches);
      list := matches;
      r := if |matches| == 0 then Failure(NoMatchingPeer) else Success(Peers(matches));
    }
  }

  lemma AuthorizeRefusal(r: V.Registry, e: Id, name: Str)
    ensures V.Authorize(r, e, name).result.Failure? ==> V.Authorize(r, e, name).registry == r
    ensures var o := V.Authorize(r, e, name);
            o.result.Success? ==> o.registry == r.(names := r.names[e := name])
  {
    hide ValidNodeName;
  }
}
