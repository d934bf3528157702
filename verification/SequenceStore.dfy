/** `FileSequenceStore` over a disk that can fail and lose power (`native/iroh_discovery/src/lib.rs`):
    the store's operations on values, and the runs of a process that crashes and reopens its file. */
module SequenceStore {
  import opened Octets
  import opened Cbor
  import opened Messages
  import opened SequenceFile

  // ---------- the disk ----------

  /** The file as processes see it, and the contents a power loss may leave behind. */
  datatype Disk = Disk(visible: Octets, survivors: set<Octets>)

  /** Where `atomic_write` gives up: before or at its rename, or when syncing the directory after it. */
  datatype Fault = NoFault | BeforeRename | AfterRename

  /** `atomic_write`: the rename shows the new bytes at once; only the directory sync rules out the old ones. */
  function AtomicWrite(d: Disk, bytes: Octets, fault: Fault): (r: Disk) {
    match fault
    case NoFault => Disk(bytes, {bytes})
    case BeforeRename => d
    case AfterRename => Disk(bytes, d.survivors + {bytes})
  }

  // ---------- the operations ----------

  function Watermark(m: Sequences, e: Id): (n: U64) { if e in m then m[e] else 0 }

  /** The tests `advance` makes before it writes. */
  predicate Admissible(m: Sequences, e: Id, n: U64) {
    n > Watermark(m, e) && (e in m || |m| != MAX_AUTHORIZED)
  }

  datatype Effect<T> = Effect(result: Result<T>, sequences: Sequences, disk: Disk)

  /** `FileSequenceStore::advance`: a failed write is taken back in memory, whatever reached the disk. */
  function Advance(m: Sequences, d: Disk, e: Id, n: U64, fault: Fault): (r: Effect<()>) {
    if n <= Watermark(m, e) then Effect(Failure(StaleSequence), m, d)
    else if e !in m && |m| == MAX_AUTHORIZED then Effect(Failure(SequenceStoreFailed), m, d)
    else
      var d' := AtomicWrite(d, Serialize(m[e := n]), fault);
      if fault == NoFault then Effect(Success(()), m[e := n], d') else Effect(Failure(SequenceStoreFailed), m, d')
  }

  /** `reserve_next`. */
  function Reserve(m: Sequences, d: Disk, e: Id, fault: Fault): (r: Effect<U64>) {
    if Watermark(m, e) == U64_RANGE - 1 then Effect(Failure(InvalidRecord), m, d) else
    var next := Watermark(m, e) + 1;
    var r := Advance(m, d, e, next, fault);
    Effect(if r.result.Success? then Success(next) else Failure(r.result.error), r.sequences, r.disk)
  }

  // ---------- runs ----------

  datatype Grant = Grant(endpoint: Id, sequence: U64)

  /** `memory` is the open store, if the process is up; `accepted` lists every sequence that was ever accepted. */
  datatype System = System(memory: Option<Sequences>, disk: Disk, accepted: seq<Grant>)

  datatype Step =
    | Start                                            // the process opens its file
    | TryAdvance(endpoint: Id, sequence: U64, fault: Fault)
    | TryReserve(endpoint: Id, fault: Fault)
    | Die(endpoint: Id, sequence: U64, renamed: bool)  // the process dies inside `atomic_write`
    | Exit                                             // the process dies anywhere else
    | LosePower(content: Octets)                       // the machine stops, and this is what it finds

  predicate Enabled(valid: Id -> bool, s: System, step: Step) {
    match step
    case Start => s.memory.None? && Open(valid, s.disk.visible).Success?
    case TryAdvance(e, _, _) => s.memory.Some? && valid(e)
    case TryReserve(e, _) => s.memory.Some? && valid(e)
    case Die(e, n, _) => s.memory.Some? && valid(e) && Admissible(s.memory.value, e, n)
    case Exit => s.memory.Some?
    case LosePower(content) => content in s.disk.survivors
  }

  function Next(valid: Id -> bool, s: System, step: Step): (r: System)
    requires Enabled(valid, s, step)
  {
    match step
    case Start => s.(memory := Some(Open(valid, s.disk.visible).value))
    case TryAdvance(e, n, fault) =>
      var r := Advance(s.memory.value, s.disk, e, n, fault);
      System(Some(r.sequences), r.disk, if r.result.Success? then s.accepted + [Grant(e, n)] else s.accepted)
    case TryReserve(e, fault) =>
      var r := Reserve(s.memory.value, s.disk, e, fault);
      System(Some(r.sequences), r.disk,
             if r.result.Success? then s.accepted + [Grant(e, r.result.value)] else s.accepted)
    case Die(e, n, renamed) =>
      var fault := if renamed then AfterRename else BeforeRename;
      System(None, AtomicWrite(s.disk, Serialize(s.memory.value[e := n]), fault), s.accepted)
    case Exit => s.(memory := None)
    case LosePower(content) => System(None, Disk(content, {content}), s.accepted)
  }

  /** Before the first start the file is missing, or was left by an earlier store. */
  ghost predicate Initial(valid: Id -> bool, s: System) {
    s.memory.None? && s.accepted == [] && s.disk.survivors == {s.disk.visible} && Open(valid, s.disk.visible).Success?
  }

  predicate IsRun(valid: Id -> bool, s: System, steps: seq<Step>)
    decreases |steps|
  {
    steps == [] || (Enabled(valid, s, steps[0]) && IsRun(valid, Next(valid, s, steps[0]), steps[1..]))
  }

  function After(valid: Id -> bool, s: System, steps: seq<Step>): (r: System)
    requires IsRun(valid, s, steps)
    decreases |steps|
  {
    if steps == [] then s else After(valid, Next(valid, s, steps[0]), steps[1..])
  }

  ghost predicate Reachable(valid: Id -> bool, s: System) {
    exists s0: System, steps: seq<Step> ::
      Initial(valid, s0) && IsRun(valid, s0, steps) && After(valid, s0, steps) == s
  }

  // ---------- what every run keeps ----------

  ghost predicate Dominates(m: Sequences, accepted: seq<Grant>) {
    forall g :: g in accepted ==> g.endpoint in m && m[g.endpoint] >= g.sequence
  }

  /** A file that opens, to watermarks no lower than anything accepted. */
  ghost predicate Safe(valid: Id -> bool, content: Octets, accepted: seq<Grant>) {
    Open(valid, content).Success? && Dominates(Open(valid, content).value, accepted)
  }

  /** Each endpoint's accepted sequences strictly increase. */
  ghost predicate Increasing(accepted: seq<Grant>) {
    forall i, j :: 0 <= i < j < |accepted| && accepted[i].endpoint == accepted[j].endpoint ==>
      accepted[i].sequence < accepted[j].sequence
  }

  ghost predicate DiskSafe(valid: Id -> bool, d: Disk, accepted: seq<Grant>) {
    d.visible in d.survivors && forall c :: c in d.survivors ==> Safe(valid, c, accepted)
  }

  ghost predicate Inv(valid: Id -> bool, s: System) {
    && DiskSafe(valid, s.disk, s.accepted)
    && Increasing(s.accepted)
    && (s.memory.Some? ==> Storable(valid, s.memory.value) && Dominates(s.memory.value, s.accepted))
  }

  lemma RaisedStorable(valid: Id -> bool, m: Sequences, e: Id, n: U64)
    requires Storable(valid, m) && valid(e) && Admissible(m, e, n)
    ensures Storable(valid, m[e := n])
  {
    assert m[e := n].Keys == m.Keys + {e};
  }

  lemma RaisedDominates(m: Sequences, e: Id, n: U64, accepted: seq<Grant>)
    requires Dominates(m, accepted) && n > Watermark(m, e)
    ensures Dominates(m[e := n], accepted) && Dominates(m[e := n], accepted + [Grant(e, n)])
  {
  }

  lemma GrantIncreases(m: Sequences, e: Id, n: U64, accepted: seq<Grant>)
    requires Dominates(m, accepted) && n > Watermark(m, e) && Increasing(accepted)
    ensures Increasing(accepted + [Grant(e, n)])
  {
    assert forall i :: 0 <= i < |accepted| ==> accepted[i] in accepted;
  }

  /** However a write ends, the disk stays safe; if it succeeds, the disk is also safe for the new grant. */
  lemma WriteSafe(valid: Id -> bool, d: Disk, m: Sequences, e: Id, n: U64, fault: Fault, accepted: seq<Grant>)
    requires DiskSafe(valid, d, accepted) && Storable(valid, m) && Dominates(m, accepted)
    requires valid(e) && Admissible(m, e, n)
    ensures DiskSafe(valid, AtomicWrite(d, Serialize(m[e := n]), fault), accepted)
    ensures fault == NoFault ==>
              DiskSafe(valid, AtomicWrite(d, Serialize(m[e := n]), fault), accepted + [Grant(e, n)])
  {
    RaisedStorable(valid, m, e, n);
    RaisedDominates(m, e, n, accepted);
    OpenSerialized(valid, m[e := n]);
  }

  lemma AdvanceKeepsInv(valid: Id -> bool, s: System, e: Id, n: U64, fault: Fault)
    requires Inv(valid, s) && s.memory.Some? && valid(e)
    ensures var r := Advance(s.memory.value, s.disk, e, n, fault);
            Inv(valid, System(Some(r.sequences), r.disk,
                              if r.result.Success? then s.accepted + [Grant(e, n)] else s.accepted))
  {
    var m := s.memory.value;
    if Admissible(m, e, n) {
      WriteSafe(valid, s.disk, m, e, n, fault, s.accepted);
      RaisedStorable(valid, m, e, n);
      RaisedDominates(m, e, n, s.accepted);
      GrantIncreases(m, e, n, s.accepted);
    }
  }

  lemma StartKeepsInv(valid: Id -> bool, s: System)
    requires Inv(valid, s) && Enabled(valid, s, Start)
    ensures Inv(valid, Next(valid, s, Start))
  {
    var m := Open(valid, s.disk.visible).value;
    OpenExact(valid, s.disk.visible, m);
  }

  lemma ReserveKeepsInv(valid: Id -> bool, s: System, e: Id, fault: Fault)
    requires Inv(valid, s) && Enabled(valid, s, TryReserve(e, fault))
    ensures Inv(valid, Next(valid, s, TryReserve(e, fault)))
  {
    hide Inv, Advance;
    var m := s.memory.value;
    if Watermark(m, e) < U64_RANGE - 1 {
      AdvanceKeepsInv(valid, s, e, Watermark(m, e) + 1, fault);
    }
  }

  lemma StepKeepsInv(valid: Id -> bool, s: System, step: Step)
    requires Inv(valid, s) && Enabled(valid, s, step)
    ensures Inv(valid, Next(valid, s, step))
  {
    hide Advance, Reserve, Safe, Storable, Dominates, Increasing;
    match step
    case Start => StartKeepsInv(valid, s);
    case TryAdvance(e, n, fault) => AdvanceKeepsInv(valid, s, e, n, fault);
    case TryReserve(e, fault) => ReserveKeepsInv(valid, s, e, fault);
    case Die(e, n, renamed) =>
      WriteSafe(valid, s.disk, s.memory.value, e, n, if renamed then AfterRename else BeforeRename, s.accepted);
    case Exit =>
    case LosePower(content) =>
  }

  lemma {:induction false} RunKeepsInv(valid: Id -> bool, s: System, steps: seq<Step>)
    requires Inv(valid, s) && IsRun(valid, s, steps)
    ensures Inv(valid, After(valid, s, steps))
    decreases |steps|
  {
    if steps != [] {
      StepKeepsInv(valid, s, steps[0]);
      RunKeepsInv(valid, Next(valid, s, steps[0]), steps[1..]);
    }
  }

  lemma ReachableInv(valid: Id -> bool, s: System)
    requires Reachable(valid, s)
    ensures Inv(valid, s)
  {
    var s0, steps :| Initial(valid, s0) && IsRun(valid, s0, steps) && After(valid, s0, steps) == s;
    RunKeepsInv(valid, s0, steps);
  }

  // ---------- results ----------

  /** Whatever a crash leaves behind reopens, with no watermark below a sequence that was ever accepted. */
  lemma ReloadKeepsAccepted(valid: Id -> bool, s: System, content: Octets, g: Grant)
    requires Reachable(valid, s) && content in s.disk.survivors + {s.disk.visible} && g in s.accepted
    ensures Open(valid, content).Success? && Watermark(Open(valid, content).value, g.endpoint) >= g.sequence
  {
    ReachableInv(valid, s);
    assert Safe(valid, content, s.accepted);
  }

  /** The process can always be started again. */
  lemma AlwaysReopens(valid: Id -> bool, s: System)
    requires Reachable(valid, s) && s.memory.None?
    ensures Enabled(valid, s, Start)
  {
    ReachableInv(valid, s);
  }

  /** Over all crashes, no endpoint has the same sequence, or a lower one, accepted again; in particular
      `reserve_next` never hands out a number twice. */
  lemma NeverAcceptedTwice(valid: Id -> bool, s: System, i: nat, j: nat)
    requires Reachable(valid, s)
    requires i < j < |s.accepted| && s.accepted[i].endpoint == s.accepted[j].endpoint
    ensures s.accepted[i].sequence < s.accepted[j].sequence
  {
    ReachableInv(valid, s);
  }

  /** A replay of anything accepted is refused as stale and changes nothing. */
  lemma ReplayRefused(valid: Id -> bool, s: System, g: Grant, n: U64, fault: Fault)
    requires Reachable(valid, s) && s.memory.Some? && g in s.accepted && n <= g.sequence
    ensures Advance(s.memory.value, s.disk, g.endpoint, n, fault)
         == Effect(Failure(StaleSequence), s.memory.value, s.disk)
  {
    ReachableInv(valid, s);
  }

  // ---------- file and memory ----------

  /** The file holds what memory does, so that reopening it now would change nothing. */
  predicate Agrees(valid: Id -> bool, d: Disk, m: Sequences) { Open(valid, d.visible) == Success(m) }

  /** After `advance`, file and memory agree if and only if the write succeeded, or nothing was renamed and they agreed
      before: an attempt that is refused or fails before its rename mends nothing, and one that fails after it always
      leaves them apart. */
  lemma FailedWriteOnDisk(valid: Id -> bool, m: Sequences, d: Disk, e: Id, n: U64, fault: Fault)
    requires Storable(valid, m) && valid(e)
    ensures var r := Advance(m, d, e, n, fault);
            Agrees(valid, r.disk, r.sequences)
            <==> if Admissible(m, e, n) && fault != BeforeRename then fault == NoFault else Agrees(valid, d, m)
  {
    hide Open, Serialize;
    if Admissible(m, e, n) {
      RaisedStorable(valid, m, e, n);
      OpenSerialized(valid, m[e := n]);
      assert m[e := n][e] == n;
    }
  }

  /** The step gets as far as writing. */
  predicate Writes(s: System, step: Step) {
    && s.memory.Some?
    && match step
       case TryAdvance(e, n, _) => Admissible(s.memory.value, e, n)
       case TryReserve(e, _) =>
         var last := Watermark(s.memory.value, e);
         last < U64_RANGE - 1 && Admissible(s.memory.value, e, last + 1)
       case _ => false
  }

  /** Whether file and memory are torn apart after a step, if `before` says so of before it. */
  predicate TornBy(s: System, step: Step, before: bool) {
    if step.Start? then false
    else if Writes(s, step) && step.fault != BeforeRename then step.fault == AfterRename
    else before
  }

  /** Some write failed after its rename, and since then none succeeded and the process was not started. */
  predicate Torn(valid: Id -> bool, s: System, steps: seq<Step>, before: bool)
    requires IsRun(valid, s, steps)
    decreases |steps|
  {
    if steps == [] then before
    else Torn(valid, Next(valid, s, steps[0]), steps[1..], TornBy(s, steps[0], before))
  }

  ghost predicate Tracks(valid: Id -> bool, s: System, torn: bool) {
    s.memory.Some? ==> (Agrees(valid, s.disk, s.memory.value) <==> !torn)
  }

  lemma StepTracks(valid: Id -> bool, s: System, step: Step, torn: bool)
    requires Inv(valid, s) && Enabled(valid, s, step) && Tracks(valid, s, torn)
    ensures Tracks(valid, Next(valid, s, step), TornBy(s, step, torn))
  {
    hide Open, Serialize, Storable, DiskSafe, Dominates, Increasing, Advance;
    match step
    case TryAdvance(e, n, fault) => FailedWriteOnDisk(valid, s.memory.value, s.disk, e, n, fault);
    case TryReserve(e, fault) =>
      var m := s.memory.value;
      if Watermark(m, e) < U64_RANGE - 1 {
        FailedWriteOnDisk(valid, m, s.disk, e, Watermark(m, e) + 1, fault);
      }
    case _ =>
  }

  lemma {:induction false} RunTracks(valid: Id -> bool, s: System, steps: seq<Step>, torn: bool)
    requires Inv(valid, s) && IsRun(valid, s, steps) && Tracks(valid, s, torn)
    ensures Tracks(valid, After(valid, s, steps), Torn(valid, s, steps, torn))
    decreases |steps|
  {
    hide Inv, Tracks, TornBy, Enabled, Next;
    if steps != [] {
      StepTracks(valid, s, steps[0], torn);
      StepKeepsInv(valid, s, steps[0]);
      RunTracks(valid, Next(valid, s, steps[0]), steps[1..], TornBy(s, steps[0], torn));
    }
  }

  /** In every run, the file agrees with the open store if and only if no write since the last start or success failed
      after its rename. */
  lemma FileAgreesExactly(valid: Id -> bool, s0: System, steps: seq<Step>)
    requires Initial(valid, s0) && IsRun(valid, s0, steps) && After(valid, s0, steps).memory.Some?
    ensures var s := After(valid, s0, steps);
            Agrees(valid, s.disk, s.memory.value) <==> !Torn(valid, s0, steps, false)
  {
    hide IsRun, After, Torn, Agrees;
    assert Inv(valid, s0);
    RunTracks(valid, s0, steps, false);
  }

  /** A run in which they stay apart: a first write fails after its rename, and a second, which fails before its own,
      leaves the file with a sequence that memory does not have. */
  lemma TornExample(valid: Id -> bool, s0: System, e: Id)
    requires valid(e) && s0 == System(None, Disk([], {[]}), [])
    ensures Initial(valid, s0)
    ensures var steps := [Start, TryAdvance(e, 1, AfterRename), TryAdvance(e, 1, BeforeRename)];
            && IsRun(valid, s0, steps)
            && After(valid, s0, steps).memory == Some(map[])
            && Agrees(valid, After(valid, s0, steps).disk, map[e := 1])
            && !Agrees(valid, After(valid, s0, steps).disk, map[])
  {
    hide Serialize;
    var m: Sequences, write := map[], Serialize(map[e := 1]);
    assert Open(valid, []) == Success(m);
    OpenSerialized(valid, map[e := 1]);
    assert m[e := 1] == map[e := 1];
    hide Open, IsRun, After;
    var s1 := Next(valid, s0, Start);
    assert s1 == s0.(memory := Some(m));
    var s2 := Next(valid, s1, TryAdvance(e, 1, AfterRename));
    assert s2 == s1.(disk := Disk(write, {[]} + {write}));
    assert Next(valid, s2, TryAdvance(e, 1, BeforeRename)) == s2;
    ThreeSteps(valid, s0, Start, TryAdvance(e, 1, AfterRename), TryAdvance(e, 1, BeforeRename));
  }

  lemma ThreeSteps(valid: Id -> bool, s: System, a: Step, b: Step, c: Step)
    requires Enabled(valid, s, a) && Enabled(valid, Next(valid, s, a), b)
    requires Enabled(valid, Next(valid, Next(valid, s, a), b), c)
    ensures IsRun(valid, s, [a, b, c])
    ensures After(valid, s, [a, b, c]) == Next(valid, Next(valid, Next(valid, s, a), b), c)
  {
    hide Enabled, Next;
    var s1 := Next(valid, s, a);
    var s2 := Next(valid, s1, b);
    var s3 := Next(valid, s2, c);
    assert [a, b, c][1..] == [b, c] && [b, c][1..] == [c] && [c][1..] == [];
    assert IsRun(valid, s3, []) && After(valid, s3, []) == s3;
    assert IsRun(valid, s2, [c]) && After(valid, s2, [c]) == s3;
    assert IsRun(valid, s1, [b, c]) && After(valid, s1, [b, c]) == s3;
  }
}
