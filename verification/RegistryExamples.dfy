/** Runs of the registry of `native/iroh_discovery/src/lib.rs` at which something expected of it does not hold. */
module RegistryExamples {
  import opened Octets
  import opened Text
  import opened Cbor
  import opened Messages
  import opened Codec
  import opened Records
  import opened SequenceFile
  import opened Registry
  import opened RegistryRuns
  import opened Signing
  import R = RateLimit
  import S = SequenceStore

  /** A run that holds one record: a new registry, and the signed announcement of the endpoint it has enrolled. */
  lemma HoldingRun(crypto: Crypto, signer: Signer, a: Announcement, policy: Policy, now: U64) returns (s: System)
    requires Genuine(crypto, signer) && ValidAnnouncement(a) && a.capabilities == map[] && a.endpointId == signer.public
    ensures Reachable(crypto, s) && NamesAgree(s.registry)
    ensures s.registry.records == map[a.endpointId := Active(a, now)]
  {
    hide Reachable, Genuine, ValidAnnouncement, EncodeMessage, Sign, Receive, NamesAgree, Serialize, R.Check;
    hide Delivered, Table;
    var names, disk, m := map[a.endpointId := a.nodeName], S.Disk([], {[]}), Announce(a);
    var r := Registry(a.fleetId, names, policy, map[], disk, map[], map[]);
    AnnouncementNamed(a, names);
    NewIsReachable(crypto, a.fleetId, names, policy, disk, now);
    BareMessageFits(signer, m);
    FirstAdmitted(now);
    PublishedIsHeld(crypto, signer, r, m, now);
    var s0, bytes := System(r, now, map[], []), Sign(signer, m).value;
    StepReaches(crypto, s0, Deliver(bytes, now, S.NoFault));
    s := Next(crypto, s0, Deliver(bytes, now, S.NoFault));
    DeliveredRegistry(crypto, s0, bytes, now, S.NoFault);
    ReceiveKeepsNames(crypto, r, bytes, now, S.NoFault);
  }

  lemma FirstAdmitted(now: U64)
    ensures R.Check([], now).admitted
  {
  }

  lemma DeliveredRegistry(crypto: Crypto, s: System, bytes: Octets, now: U64, fault: S.Fault)
    ensures Delivered(crypto, s, bytes, now, fault).registry == Receive(crypto, s.registry, bytes, now, fault).registry
  {
    hide Decoded, Admit, Gatekeep, Charge;
  }

  lemma AnnouncementNamed(a: Announcement, names: map<Id, Str>)
    requires ValidAnnouncement(a) && names == map[a.endpointId := a.nodeName]
    ensures Table(names) && a.sequence > 0
  {
  }

  lemma ReceiveKeepsNames(crypto: Crypto, r: Registry, bytes: Octets, now: U64, fault: S.Fault)
    requires r.records == map[]
    ensures NamesAgree(Receive(crypto, r, bytes, now, fault).registry)
  {
    hide Decoded, Admit;
    if Decoded(crypto, bytes).Success? {
      var d := Decoded(crypto, bytes).value;
      AdmitKeepsNames(crypto, r, d.envelope, d.message, now, fault);
    }
  }

  /** A renamed endpoint: authorizing it again under another name leaves its record active under the old one. */
  lemma RenamedExample(crypto: Crypto, signer: Signer, a: Announcement, policy: Policy, now: U64, name: Str)
      returns (s: System)
    requires Genuine(crypto, signer) && ValidAnnouncement(a) && a.capabilities == map[] && a.endpointId == signer.public
    requires ValidNodeName(name) && name != a.nodeName
    ensures Reachable(crypto, s) && NamesAgree(s.registry)
    ensures var s' := Next(crypto, s, Authorizing(a.endpointId, name));
            && Reachable(crypto, s') && a.endpointId in s'.registry.records && a.endpointId in s'.registry.names
            && s'.registry.names[a.endpointId] == name
            && s'.registry.records[a.endpointId].announcement.nodeName != name
  {
    hide Reachable, Genuine, ValidAnnouncement, NamesAgree, ValidNodeName;
    s := HoldingRun(crypto, signer, a, policy, now);
    RecordsCurrent(crypto, s, a.endpointId);
    StepReaches(crypto, s, Authorizing(a.endpointId, name));
  }
}
