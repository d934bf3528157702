/** The subscriber registry of `lib/elixir_rpc/p2p/node/handler_registry.ex`: its two maps, the callbacks that change
    them, and the set of registrations they stand for. Monitor references are numbered as they are created. */
module HandlerRegistry {
  import opened Octets

  type Pid = nat
  type Ref = nat

  datatype Key = Key(node: Pid, event: Octets)
  datatype Entry = Entry(pid: Pid, ref: Ref)
  datatype Watch = Watch(pid: Pid, node: Pid, event: Octets)

  type Subscriptions = map<Key, seq<Entry>>
  type Monitors = map<Ref, Watch>

  /** `created` lists the process each monitor reference was created for. */
  datatype State = State(subscriptions: Subscriptions, monitors: Monitors, created: seq<Pid>)

  function EntriesOf(subs: Subscriptions, k: Key): (es: seq<Entry>) { if k in subs then subs[k] else [] }

  /** `List.keyfind` by process. */
  function KeyFind(es: seq<Entry>, pid: Pid): (r: Option<Ref>) {
    if es == [] then None else if es[0].pid == pid then Some(es[0].ref) else KeyFind(es[1..], pid)
  }

  /** `List.keydelete` by process: the first entry only. */
  function KeyDelete(es: seq<Entry>, pid: Pid): (r: seq<Entry>) {
    if es == [] then [] else if es[0].pid == pid then es[1..] else [es[0]] + KeyDelete(es[1..], pid)
  }

  /** Puts back what is left under a key, or drops the key. */
  function Keep(subs: Subscriptions, k: Key, es: seq<Entry>): (r: Subscriptions) {
    if es == [] then subs - {k} else subs[k := es]
  }

  // ---------- the callbacks ----------

  function Register(s: State, k: Key, pid: Pid): (s': State) {
    if KeyFind(EntriesOf(s.subscriptions, k), pid).Some? then s else
    var ref := |s.created|;
    State(s.subscriptions[k := [Entry(pid, ref)] + EntriesOf(s.subscriptions, k)],
          s.monitors[ref := Watch(pid, k.node, k.event)], s.created + [pid])
  }

  function Unregister(s: State, k: Key, pid: Pid): (s': State) {
    var es := EntriesOf(s.subscriptions, k);
    match KeyFind(es, pid)
    case None => s
    case Some(ref) =>
      s.(subscriptions := Keep(s.subscriptions, k, KeyDelete(es, pid)), monitors := s.monitors - {ref})
  }

  /** `remove_dead_subscriber`; it has no clause for a reference filed under another process. */
  predicate DeadClause(s: State, ref: Ref, pid: Pid) { ref in s.monitors ==> s.monitors[ref].pid == pid }

  function RemoveDead(s: State, ref: Ref, pid: Pid): (s': State)
    requires DeadClause(s, ref, pid)
  {
    if ref !in s.monitors then s else
    var k := Key(s.monitors[ref].node, s.monitors[ref].event);
    s.(subscriptions := Keep(s.subscriptions, k, KeyDelete(EntriesOf(s.subscriptions, k), pid)),
       monitors := s.monitors - {ref})
  }

  /** `remove_all_for_node`. */
  function Cleanup(s: State, node: Pid): (s': State) {
    var dropped := set k, i | k in s.subscriptions && k.node == node && 0 <= i < |s.subscriptions[k]| ::
                     s.subscriptions[k][i].ref;
    s.(subscriptions := map k | k in s.subscriptions && k.node != node :: s.subscriptions[k],
       monitors := s.monitors - dropped)
  }

  function Pids(es: seq<Entry>): (r: seq<Pid>) { if es == [] then [] else [es[0].pid] + Pids(es[1..]) }

  /** The processes an event is sent to, in order. */
  function Dispatch(s: State, k: Key): (r: seq<Pid>) { Pids(EntriesOf(s.subscriptions, k)) }

  // ---------- the index ----------

  ghost predicate NoPidTwice(es: seq<Entry>) { forall i, j :: 0 <= i < j < |es| ==> es[i].pid != es[j].pid }

  ghost predicate Has(subs: Subscriptions, k: Key, e: Entry) { k in subs && e in subs[k] }

  /** Every entry has its monitor, and every monitor its entry. */
  ghost predicate Inverse(subs: Subscriptions, mons: Monitors) {
    && (forall k, e :: Has(subs, k, e) ==> e.ref in mons && mons[e.ref] == Watch(e.pid, k.node, k.event))
    && (forall r :: r in mons ==> Has(subs, Key(mons[r].node, mons[r].event), Entry(mons[r].pid, r)))
  }

  ghost predicate Tidy(subs: Subscriptions) { forall k :: k in subs ==> subs[k] != [] && NoPidTwice(subs[k]) }

  ghost predicate Inv(s: State) {
    && Inverse(s.subscriptions, s.monitors)
    && Tidy(s.subscriptions)
    && (forall r :: r in s.monitors ==> r < |s.created| && s.created[r] == s.monitors[r].pid)
  }

  /** The registrations the maps stand for. */
  predicate Registered(s: State, k: Key, pid: Pid) { KeyFind(EntriesOf(s.subscriptions, k), pid).Some? }

  // ---------- lists of entries ----------

  lemma {:induction false} KeyFindExact(es: seq<Entry>, pid: Pid)
    requires NoPidTwice(es)
    ensures forall ref: Ref :: KeyFind(es, pid) == Some(ref) <==> Entry(pid, ref) in es
  {
    if es != [] {
      KeyFindExact(es[1..], pid);
      assert es == [es[0]] + es[1..];
    }
  }

  lemma {:induction false} KeyDeleteExact(es: seq<Entry>, pid: Pid)
    requires NoPidTwice(es)
    ensures NoPidTwice(KeyDelete(es, pid))
    ensures forall e :: e in KeyDelete(es, pid) <==> e in es && e.pid != pid
  {
    if es != [] {
      var first, rest := es[0], es[1..];
      KeyDeleteExact(rest, pid);
      assert es == [first] + rest;
      assert forall i :: 0 <= i < |rest| ==> rest[i] == es[i + 1];
      if first.pid != pid {
        ConsDistinct(first, KeyDelete(rest, pid), rest);
      }
    }
  }

  lemma ConsDistinct(first: Entry, tail: seq<Entry>, rest: seq<Entry>)
    requires NoPidTwice(tail) && (forall e :: e in tail ==> e in rest) && (forall e :: e in rest ==> e.pid != first.pid)
    ensures NoPidTwice([first] + tail)
  {
    assert forall i :: 0 <= i < |tail| ==> tail[i] in tail;
  }

  lemma {:induction false} PidsExact(es: seq<Entry>, pid: Pid)
    requires NoPidTwice(es)
    ensures multiset(Pids(es))[pid] == if KeyFind(es, pid).Some? then 1 else 0
  {
    if es != [] {
      PidsExact(es[1..], pid);
      KeyFindExact(es[1..], pid);
    }
  }

  // ---------- each callback ----------

  lemma RegisterKeepsInv(s: State, k: Key, pid: Pid)
    requires Inv(s)
    ensures Inv(Register(s, k, pid))
  {
    var es := EntriesOf(s.subscriptions, k);
    KeyFindExact(es, pid);
    if KeyFind(es, pid).None? {
      var ref := |s.created|;
      var s' := Register(s, k, pid);
      forall i | 0 <= i < |es|
        ensures es[i].pid != pid
      {
        assert es[i] == Entry(es[i].pid, es[i].ref);
      }
      forall j, e | Has(s'.subscriptions, j, e)
        ensures e.ref in s'.monitors && s'.monitors[e.ref] == Watch(e.pid, j.node, j.event)
      {
        if !(j == k && e == Entry(pid, ref)) {
          assert Has(s.subscriptions, j, e);
        }
      }
      forall r | r in s'.monitors
        ensures Has(s'.subscriptions, Key(s'.monitors[r].node, s'.monitors[r].event), Entry(s'.monitors[r].pid, r))
      {
        if r != ref {
          assert Has(s.subscriptions, Key(s.monitors[r].node, s.monitors[r].event), Entry(s.monitors[r].pid, r));
        }
      }
    }
  }

  /** Taking one registration out of both maps. */
  lemma RemovalKeepsInv(s: State, k: Key, pid: Pid, ref: Ref)
    requires Inv(s) && Has(s.subscriptions, k, Entry(pid, ref))
    ensures Inv(s.(subscriptions := Keep(s.subscriptions, k, KeyDelete(EntriesOf(s.subscriptions, k), pid)),
                   monitors := s.monitors - {ref}))
  {
    var es := s.subscriptions[k];
    KeyDeleteExact(es, pid);
    KeyFindExact(es, pid);
    var subs, mons := Keep(s.subscriptions, k, KeyDelete(es, pid)), s.monitors - {ref};
    forall j, e | Has(subs, j, e)
      ensures e.ref in mons && mons[e.ref] == Watch(e.pid, j.node, j.event)
    {
      assert Has(s.subscriptions, j, e);
    }
    forall r | r in mons
      ensures Has(subs, Key(mons[r].node, mons[r].event), Entry(mons[r].pid, r))
    {
      assert Has(s.subscriptions, Key(mons[r].node, mons[r].event), Entry(mons[r].pid, r));
    }
  }

  lemma UnregisterKeepsInv(s: State, k: Key, pid: Pid)
    requires Inv(s)
    ensures Inv(Unregister(s, k, pid))
  {
    hide Inverse, Keep, KeyDelete;
    var es := EntriesOf(s.subscriptions, k);
    if KeyFind(es, pid).Some? {
      KeyFindExact(es, pid);
      RemovalKeepsInv(s, k, pid, KeyFind(es, pid).value);
    }
  }

  /** A death notice of any reference ever created finds its clause, so the registry never fails on one. */
  lemma DeathHandled(s: State, ref: Ref)
    requires Inv(s) && ref < |s.created|
    ensures DeadClause(s, ref, s.created[ref]) && Inv(RemoveDead(s, ref, s.created[ref]))
  {
    if ref in s.monitors {
      var w := s.monitors[ref];
      assert Has(s.subscriptions, Key(w.node, w.event), Entry(w.pid, ref));
      RemovalKeepsInv(s, Key(w.node, w.event), w.pid, ref);
    }
  }

  lemma CleanupKeepsInv(s: State, node: Pid)
    requires Inv(s)
    ensures Inv(Cleanup(s, node))
  {
    var s' := Cleanup(s, node);
    forall k, e | Has(s'.subscriptions, k, e)
      ensures e.ref in s'.monitors && s'.monitors[e.ref] == Watch(e.pid, k.node, k.event)
    {
      assert Has(s.subscriptions, k, e);
      CleanupKeeps(s, node, e.ref);
    }
    forall r | r in s'.monitors
      ensures Has(s'.subscriptions, Key(s'.monitors[r].node, s'.monitors[r].event), Entry(s'.monitors[r].pid, r))
    {
      CleanupKeeps(s, node, r);
      assert Has(s.subscriptions, Key(s.monitors[r].node, s.monitors[r].event), Entry(s.monitors[r].pid, r));
    }
  }

  /** A monitor is dropped exactly if it is for the node that went away. */
  lemma CleanupKeeps(s: State, node: Pid, r: Ref)
    requires Inv(s) && r in s.monitors
    ensures r in Cleanup(s, node).monitors <==> s.monitors[r].node != node
  {
    var w := s.monitors[r];
    var k := Key(w.node, w.event);
    assert Has(s.subscriptions, k, Entry(w.pid, r));
    var i :| 0 <= i < |s.subscriptions[k]| && s.subscriptions[k][i] == Entry(w.pid, r);
    assert s.subscriptions[k][i].ref == r;
    forall j, n | j in s.subscriptions && 0 <= n < |s.subscriptions[j]| && s.subscriptions[j][n].ref == r
      ensures j.node == w.node
    {
      assert Has(s.subscriptions, j, s.subscriptions[j][n]);
    }
  }

  // ---------- what each callback means ----------

  lemma RegisterMeans(s: State, k: Key, pid: Pid, j: Key, other: Pid)
    requires Inv(s)
    ensures Registered(Register(s, k, pid), j, other) <==> Registered(s, j, other) || (j == k && other == pid)
  {
    if !Registered(s, k, pid) {
      var es := EntriesOf(s.subscriptions, k);
      assert ([Entry(pid, |s.created|)] + es)[1..] == es;
    }
  }

  lemma {:induction false} KeyDeleteFinds(es: seq<Entry>, pid: Pid, other: Pid)
    requires NoPidTwice(es)
    ensures KeyFind(KeyDelete(es, pid), other).Some? <==> other != pid && KeyFind(es, other).Some?
  {
    if es != [] {
      KeyDeleteFinds(es[1..], pid, other);
      KeyFindExact(es[1..], es[0].pid);
    }
  }

  lemma RemovalMeans(s: State, k: Key, pid: Pid, mons: Monitors, j: Key, other: Pid)
    requires Inv(s) && k in s.subscriptions
    ensures var s' := State(Keep(s.subscriptions, k, KeyDelete(EntriesOf(s.subscriptions, k), pid)), mons, s.created);
            Registered(s', j, other) <==> Registered(s, j, other) && !(j == k && other == pid)
  {
    KeyDeleteFinds(s.subscriptions[k], pid, other);
  }

  lemma UnregisterMeans(s: State, k: Key, pid: Pid, j: Key, other: Pid)
    requires Inv(s)
    ensures Registered(Unregister(s, k, pid), j, other) <==> Registered(s, j, other) && !(j == k && other == pid)
  {
    if Registered(s, k, pid) {
      RemovalMeans(s, k, pid, Unregister(s, k, pid).monitors, j, other);
    }
  }

  /** A death notice takes away the one registration its reference was created for. */
  lemma DeathMeans(s: State, ref: Ref, j: Key, other: Pid)
    requires Inv(s) && ref < |s.created| && DeadClause(s, ref, s.created[ref])
    ensures Registered(RemoveDead(s, ref, s.created[ref]), j, other)
       <==> Registered(s, j, other) && !(ref in s.monitors && s.monitors[ref] == Watch(other, j.node, j.event))
  {
    if ref in s.monitors {
      var w := s.monitors[ref];
      assert Has(s.subscriptions, Key(w.node, w.event), Entry(w.pid, ref));
      RemovalMeans(s, Key(w.node, w.event), w.pid, s.monitors - {ref}, j, other);
    }
  }

  lemma CleanupMeans(s: State, node: Pid, j: Key, other: Pid)
    ensures Registered(Cleanup(s, node), j, other) <==> Registered(s, j, other) && j.node != node
  {
  }

  // ---------- runs ----------

  datatype Step =
    | Registering(key: Key, pid: Pid)
    | Unregistering(key: Key, pid: Pid)
    | Dying(ref: Ref)                   // a death notice of a reference created earlier, current or not
    | Leaving(node: Pid)

  predicate Enabled(s: State, step: Step) {
    step.Dying? ==> step.ref < |s.created| && DeadClause(s, step.ref, s.created[step.ref])
  }

  function Next(s: State, step: Step): (s': State)
    requires Enabled(s, step)
  {
    match step
    case Registering(k, pid) => Register(s, k, pid)
    case Unregistering(k, pid) => Unregister(s, k, pid)
    case Dying(ref) => RemoveDead(s, ref, s.created[ref])
    case Leaving(node) => Cleanup(s, node)
  }

  predicate IsRun(s: State, steps: seq<Step>)
    decreases |steps|
  {
    steps == [] || (Enabled(s, steps[0]) && IsRun(Next(s, steps[0]), steps[1..]))
  }

  function After(s: State, steps: seq<Step>): (s': State)
    requires IsRun(s, steps)
    decreases |steps|
  {
    if steps == [] then s else After(Next(s, steps[0]), steps[1..])
  }

  ghost predicate Empty(s: State) { s.subscriptions == map[] && s.monitors == map[] && s.created == [] }

  ghost predicate Reachable(s: State) {
    exists s0: State, steps: seq<Step> :: Empty(s0) && IsRun(s0, steps) && After(s0, steps) == s
  }

  lemma StepKeepsInv(s: State, step: Step)
    requires Inv(s) && Enabled(s, step)
    ensures Inv(Next(s, step))
  {
    hide Inv, Register, Unregister, RemoveDead, Cleanup;
    match step
    case Registering(k, pid) => RegisterKeepsInv(s, k, pid);
    case Unregistering(k, pid) => UnregisterKeepsInv(s, k, pid);
    case Dying(ref) => DeathHandled(s, ref);
    case Leaving(node) => CleanupKeepsInv(s, node);
  }

  lemma {:induction false} RunKeepsInv(s: State, steps: seq<Step>)
    requires Inv(s) && IsRun(s, steps)
    ensures Inv(After(s, steps))
    decreases |steps|
  {
    hide Inv, Enabled, Next;
    if steps != [] {
      StepKeepsInv(s, steps[0]);
      RunKeepsInv(Next(s, steps[0]), steps[1..]);
    }
  }

  lemma ReachableInv(s: State)
    requires Reachable(s)
    ensures Inv(s)
  {
    hide IsRun, After;
    var s0, steps :| Empty(s0) && IsRun(s0, steps) && After(s0, steps) == s;
    assert Inv(s0);
    RunKeepsInv(s0, steps);
  }

  /** Over every run the two maps are exact inverses, no key holds an empty list, and none holds a process twice. */
  lemma IndexExact(s: State, k: Key, e: Entry)
    requires Reachable(s)
    ensures Has(s.subscriptions, k, e)
       <==> e.ref in s.monitors && s.monitors[e.ref] == Watch(e.pid, k.node, k.event)
    ensures k in s.subscriptions ==> s.subscriptions[k] != [] && NoPidTwice(s.subscriptions[k])
  {
    hide Reachable;
    ReachableInv(s);
  }

  /** And an event goes exactly once to each registered process, and to no other. */
  lemma DispatchOnce(s: State, k: Key, pid: Pid)
    requires Reachable(s)
    ensures multiset(Dispatch(s, k))[pid] == if Registered(s, k, pid) then 1 else 0
  {
    hide Reachable;
    ReachableInv(s);
    PidsExact(EntriesOf(s.subscriptions, k), pid);
  }

  /** A death notice can always be handled. */
  lemma DeathNeverFails(s: State, ref: Ref)
    requires Reachable(s) && ref < |s.created|
    ensures Enabled(s, Dying(ref))
  {
    hide Reachable;
    ReachableInv(s);
    DeathHandled(s, ref);
  }
}
