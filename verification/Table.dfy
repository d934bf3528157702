/** Many streams over one table (`native/iroh_discovery/src/dist.rs`): installations, API calls by id and the streams'
    runners interleave, each touching the shared table in its own critical section. Seen from one id, such a run is a
    run of `Carrier`, as long as ids do not repeat. */
module Table {
  import opened Octets
  import D = Carrier
  import opened Dist

  /** The shared table, and beside it each stream's runner with its histories; `installed` counts the streams. */
  datatype Table = Table(nextId: nat, streams: map<nat, D.StreamState>, runners: map<nat, D.Stream>, installed: nat)

  datatype Step = Install | On(id: nat, step: D.Step)

  /** One stream: its runner, with the entry the table has for its id. */
  function View(t: Table, id: nat): (s: D.Stream)
    requires id in t.runners
  {
    t.runners[id].(entry := Lookup(t.streams, id))
  }

  function Put(streams: map<nat, D.StreamState>, id: nat, e: D.Entry): (r: map<nat, D.StreamState>) {
    if e.Some? then streams[id := e.value] else streams - {id}
  }

  /** What `install_stream` starts from. */
  function Fresh(): (s: D.Stream) {
    D.Stream(Some(D.StreamState([], D.CREDIT_WINDOW, D.CREDIT_WINDOW)), D.CREDIT_WINDOW, D.Starting,
             [], [], [], [], 0, 0, None)
  }

  predicate Api(step: D.Step) { step.ApiSend? || step.ApiCredit? || step.ApiClose? }

  /** API calls may name any id; a runner moves only its own stream. */
  predicate Enabled(t: Table, step: Step) {
    step.On? ==> if step.id in t.runners then D.Enabled(View(t, step.id), step.step) else Api(step.step)
  }

  function Next(t: Table, step: Step): (t': Table)
    requires Enabled(t, step)
  {
    match step
    case Install =>
      Table(NextId(t.nextId), Put(t.streams, t.nextId, Fresh().entry), t.runners[t.nextId := Fresh()], t.installed + 1)
    case On(id, d) =>
      if id !in t.runners then t else
      var s := D.Next(View(t, id), d);
      t.(streams := Put(t.streams, id, s.entry), runners := t.runners[id := s])
  }

  predicate IsRun(t: Table, steps: seq<Step>)
    decreases |steps|
  {
    steps == [] || (Enabled(t, steps[0]) && IsRun(Next(t, steps[0]), steps[1..]))
  }

  function After(t: Table, steps: seq<Step>): (t': Table)
    requires IsRun(t, steps)
    decreases |steps|
  {
    if steps == [] then t else After(Next(t, steps[0]), steps[1..])
  }

  predicate Empty(t: Table) { t.nextId == 1 && t.streams == map[] && t.runners == map[] && t.installed == 0 }

  ghost predicate Reachable(t: Table) {
    exists t0: Table, steps: seq<Step> :: Empty(t0) && IsRun(t0, steps) && After(t0, steps) == t
  }

  // ---------- a critical section is a step ----------

  /** What the methods of `Dist` promise, the new entry of one id and no other change, fixes the whole table. */
  lemma SectionIsPut(before: map<nat, D.StreamState>, after: map<nat, D.StreamState>, id: nat)
    requires OnlyAt(before, after, id)
    ensures after == Put(before, id, Lookup(after, id))
  {
    var put := Put(before, id, Lookup(after, id));
    forall other: nat
      ensures Lookup(after, other) == Lookup(put, other)
    {
      if other != id {
        assert Lookup(before, other) == Lookup(after, other);
      }
    }
    SameLookups(after, put);
  }

  lemma SameLookups(a: map<nat, D.StreamState>, b: map<nat, D.StreamState>)
    requires forall id: nat :: Lookup(a, id) == Lookup(b, id)
    ensures a == b
  {
    assert forall id: nat :: id in a <==> Lookup(a, id).Some?;
    assert forall id: nat :: id in b <==> Lookup(b, id).Some?;
    assert forall id: nat | id in a :: a[id] == Lookup(a, id).value == b[id];
  }

  /** So a section that leaves the entry the protocol's step leaves has taken that step. */
  lemma SectionIsStep(t: Table, id: nat, step: D.Step, after: map<nat, D.StreamState>)
    requires id in t.runners && Enabled(t, On(id, step)) && OnlyAt(t.streams, after, id)
    requires Lookup(after, id) == D.Next(View(t, id), step).entry
    ensures after == Next(t, On(id, step)).streams
  {
    hide D.Next, D.Enabled;
    SectionIsPut(t.streams, after, id);
  }

  // ---------- seen from one id ----------

  /** Ids so far are 1, 2, ..., and every stream seen by itself is reachable. */
  ghost predicate Inv(t: Table) {
    && (t.installed < ID_RANGE - 1 ==> t.nextId == t.installed + 1)
    && (forall id :: id in t.runners ==> 1 <= id <= t.installed)
    && (forall id :: id in t.runners ==> D.Reachable(View(t, id)))
  }

  lemma FreshReachable(s: D.Stream)
    requires s == Fresh()
    ensures D.Reachable(s)
  {
    assert D.Installed(s) && D.IsRun(s, []) && D.After(s, []) == s;
  }

  lemma PutLookup(streams: map<nat, D.StreamState>, id: nat, e: D.Entry)
    ensures Lookup(Put(streams, id, e), id) == e
    ensures forall other :: other != id ==> Lookup(Put(streams, id, e), other) == Lookup(streams, other)
  {
  }

  lemma InstallKeepsInv(t: Table)
    requires Inv(t) && t.installed < ID_RANGE - 1
    ensures Inv(Next(t, Install))
  {
    hide D.Reachable;
    var t' := Next(t, Install);
    FreshReachable(Fresh());
    PutLookup(t.streams, t.nextId, Fresh().entry);
    forall id | id in t'.runners
      ensures D.Reachable(View(t', id))
    {
      if id != t.nextId {
        assert View(t', id) == View(t, id);
      }
    }
  }

  lemma StreamStepKeepsInv(t: Table, id: nat, step: D.Step)
    requires Inv(t) && Enabled(t, On(id, step))
    ensures Inv(Next(t, On(id, step)))
  {
    hide D.Reachable, D.Next, D.Enabled;
    if id in t.runners {
      var t' := Next(t, On(id, step));
      var s := D.Next(View(t, id), step);
      D.StepReaches(View(t, id), step);
      PutLookup(t.streams, id, s.entry);
      forall other | other in t'.runners
        ensures D.Reachable(View(t', other))
      {
        assert View(t', other) == if other == id then s else View(t, other);
      }
    }
  }

  /** Installations in a run. */
  function Installs(steps: seq<Step>): (k: nat) {
    if steps == [] then 0 else (if steps[0].Install? then 1 else 0) + Installs(steps[1..])
  }

  lemma {:induction false} RunKeepsInv(t: Table, steps: seq<Step>)
    requires Inv(t) && IsRun(t, steps) && t.installed + Installs(steps) <= ID_RANGE - 1
    ensures Inv(After(t, steps))
    decreases |steps|
  {
    hide Inv, View, D.Enabled, D.Next;
    if steps != [] {
      if steps[0].Install? {
        InstallKeepsInv(t);
      } else {
        StreamStepKeepsInv(t, steps[0].id, steps[0].step);
      }
      RunKeepsInv(Next(t, steps[0]), steps[1..]);
    }
  }

  lemma {:induction false} InstallsCount(t: Table, steps: seq<Step>)
    requires IsRun(t, steps)
    ensures After(t, steps).installed == t.installed + Installs(steps)
    decreases |steps|
  {
    hide View, D.Enabled, D.Next;
    if steps != [] {
      InstallsCount(Next(t, steps[0]), steps[1..]);
    }
  }

  /** In every interleaving of any number of streams, up to the first repeated id, each stream seen by itself is one of
      `Carrier`'s: what is proved of one stream holds of every entry of the table. */
  lemma StreamsApart(t: Table, id: nat)
    requires Reachable(t) && t.installed < ID_RANGE && id in t.runners
    ensures D.Reachable(View(t, id))
  {
    hide IsRun, After;
    var t0, steps :| Empty(t0) && IsRun(t0, steps) && After(t0, steps) == t;
    InstallsCount(t0, steps);
    RunKeepsInv(t0, steps);
  }

  /** So the window laws hold of the table itself: a live stream's entry is there, its free credit, queue and what its
      runner holds make one window, and its receive credit is what the runner has plus what is on its way. */
  lemma TableWindows(t: Table, id: nat)
    requires Reachable(t) && t.installed < ID_RANGE && id in t.runners && D.Live(t.runners[id].phase)
    ensures id in t.streams
    ensures var e, r := t.streams[id], t.runners[id];
            && e.sendCredit + |D.QueuedBytes(e.commands)| + D.Unreturned(r.phase) == D.CREDIT_WINDOW
            && e.receiveCredit == r.window + D.QueuedGrants(e.commands) + D.Uncharged(r.phase)
            && e.receiveCredit <= D.CREDIT_WINDOW
  {
    hide Reachable, D.Reachable;
    StreamsApart(t, id);
    D.SendWindowConserved(View(t, id));
    D.ReceiveWindowsAgree(View(t, id));
  }
}
