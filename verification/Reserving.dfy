/** The sender's numbering (`reserve_next` of `native/iroh_discovery/src/lib.rs`): over every run in which no write is
    cut short after its rename, the number handed out is the successor of the last one accepted, so a fresh store
    counts 1, 2, 3 and so on through all restarts; and, over every run at all, exactly when it skips a number. */
module Reserving {
  import opened Octets
  import opened Cbor
  import opened Messages
  import opened SequenceFile
  import opened SequenceStore

  /** The sequences accepted for an endpoint, in order. */
  function GrantedTo(accepted: seq<Grant>, e: Id): (r: seq<U64>) {
    if accepted == [] then [] else
    var front, last := GrantedTo(accepted[..|accepted| - 1], e), accepted[|accepted| - 1];
    if last.endpoint == e then front + [last.sequence] else front
  }

  /** The last of them, or 0. */
  function LastOf(accepted: seq<Grant>, e: Id): (n: U64) {
    var granted := GrantedTo(accepted, e);
    if granted == [] then 0 else granted[|granted| - 1]
  }

  lemma GrantPushed(accepted: seq<Grant>, g: Grant, e: Id)
    ensures GrantedTo(accepted + [g], e)
         == if g.endpoint == e then GrantedTo(accepted, e) + [g.sequence] else GrantedTo(accepted, e)
  {
    assert (accepted + [g])[..|accepted + [g]| - 1] == accepted;
  }

  /** The step does not leave a write renamed and not accepted. */
  predicate Clean(step: Step) {
    match step
    case TryAdvance(_, _, fault) => fault != AfterRename
    case TryReserve(_, fault) => fault != AfterRename
    case Die(_, _, renamed) => !renamed
    case _ => true
  }

  predicate AllClean(steps: seq<Step>) { forall i :: 0 <= i < |steps| ==> Clean(steps[i]) }

  ghost predicate Latest(m: Sequences, accepted: seq<Grant>) {
    forall e :: Watermark(m, e) == LastOf(accepted, e)
  }

  /** The file, the only one that can survive, and memory both hold the last accepted sequence of every endpoint. */
  ghost predicate InStep(valid: Id -> bool, s: System) {
    && s.disk.survivors == {s.disk.visible}
    && Open(valid, s.disk.visible).Success? && Latest(Open(valid, s.disk.visible).value, s.accepted)
    && (s.memory.Some? ==> Agrees(valid, s.disk, s.memory.value))
  }

  lemma LatestRaised(m: Sequences, accepted: seq<Grant>, e: Id, n: U64)
    requires Latest(m, accepted)
    ensures Latest(m[e := n], accepted + [Grant(e, n)])
  {
    hide GrantedTo;
    forall other
      ensures Watermark(m[e := n], other) == LastOf(accepted + [Grant(e, n)], other)
    {
      GrantPushed(accepted, Grant(e, n), other);
      assert Watermark(m, other) == LastOf(accepted, other);
    }
  }

  lemma AdvanceInStep(valid: Id -> bool, s: System, e: Id, n: U64, fault: Fault)
    requires Inv(valid, s) && InStep(valid, s) && s.memory.Some? && valid(e) && fault != AfterRename
    ensures var r := Advance(s.memory.value, s.disk, e, n, fault);
            InStep(valid, System(Some(r.sequences), r.disk,
                                 if r.result.Success? then s.accepted + [Grant(e, n)] else s.accepted))
  {
    hide Open, Serialize, Latest, DiskSafe, Dominates;
    var m := s.memory.value;
    if Admissible(m, e, n) && fault == NoFault {
      RaisedStorable(valid, m, e, n);
      OpenSerialized(valid, m[e := n]);
      LatestRaised(m, s.accepted, e, n);
    }
  }

  lemma StepInStep(valid: Id -> bool, s: System, step: Step)
    requires Inv(valid, s) && InStep(valid, s) && Enabled(valid, s, step) && Clean(step)
    ensures InStep(valid, Next(valid, s, step))
  {
    hide Inv, Open, Serialize, Latest, Advance, Admissible;
    match step
    case TryAdvance(e, n, fault) => AdvanceInStep(valid, s, e, n, fault);
    case TryReserve(e, fault) =>
      var last := Watermark(s.memory.value, e);
      if last < U64_RANGE - 1 {
        AdvanceInStep(valid, s, e, last + 1, fault);
      }
    case _ =>
  }

  lemma {:induction false} RunInStep(valid: Id -> bool, s: System, steps: seq<Step>)
    requires Inv(valid, s) && InStep(valid, s) && IsRun(valid, s, steps) && AllClean(steps)
    ensures InStep(valid, After(valid, s, steps)) && Inv(valid, After(valid, s, steps))
    decreases |steps|
  {
    hide Inv, InStep, Enabled, Next, Clean;
    if steps != [] {
      StepInStep(valid, s, steps[0]);
      StepKeepsInv(valid, s, steps[0]);
      RunInStep(valid, Next(valid, s, steps[0]), steps[1..]);
    }
  }

  /** Before the first start, with no file. */
  predicate NoFile(s: System) { s == System(None, Disk([], {[]}), []) }

  lemma NoFileInStep(valid: Id -> bool, s: System)
    requires NoFile(s)
    ensures Initial(valid, s) && Inv(valid, s) && InStep(valid, s)
  {
    assert Open(valid, []) == Success(map[]);
    assert forall e :: GrantedTo([], e) == [];
  }

  /** `reserve_next` hands out the successor of the last sequence accepted, unless there is none, the store is full, or
      the write fails. */
  lemma ReserveIsNext(valid: Id -> bool, s0: System, steps: seq<Step>, e: Id, fault: Fault)
    requires NoFile(s0) && IsRun(valid, s0, steps) && AllClean(steps) && After(valid, s0, steps).memory.Some?
    ensures var s := After(valid, s0, steps);
            var m, last := s.memory.value, LastOf(s.accepted, e);
            Reserve(m, s.disk, e, fault).result
            == if last == 0xFFFF_FFFF_FFFF_FFFF then Failure(InvalidRecord)
               else if (e !in m && |m| == 1024) || fault != NoFault then Failure(SequenceStoreFailed)
               else Success(last + 1)
  {
    hide IsRun, After, Inv, Open, GrantedTo, LastOf, Serialize, AllClean;
    NoFileInStep(valid, s0);
    RunInStep(valid, s0, steps);
    var s := After(valid, s0, steps);
    assert Watermark(s.memory.value, e) == LastOf(s.accepted, e);
  }

  // ---------- counting ----------

  /** Nothing but `reserve_next` raises the endpoint's sequence. */
  predicate OnlyReserved(steps: seq<Step>, e: Id) {
    forall i :: 0 <= i < |steps| ==> !(steps[i].TryAdvance? && steps[i].endpoint == e)
  }

  ghost predicate Counts(granted: seq<U64>) { forall i :: 0 <= i < |granted| ==> granted[i] == i + 1 }

  lemma CountPushed(granted: seq<U64>, n: U64)
    requires Counts(granted) && n - 1 == if granted == [] then 0 else granted[|granted| - 1]
    ensures Counts(granted + [n])
  {
  }

  lemma StepCounts(valid: Id -> bool, s: System, step: Step, e: Id)
    requires InStep(valid, s) && Enabled(valid, s, step) && !(step.TryAdvance? && step.endpoint == e)
    requires Counts(GrantedTo(s.accepted, e))
    ensures Counts(GrantedTo(Next(valid, s, step).accepted, e))
  {
    hide Open, Serialize, GrantedTo, Counts, Admissible;
    if step.TryAdvance? {
      GrantPushed(s.accepted, Grant(step.endpoint, step.sequence), e);
    } else if step.TryReserve? {
      var m := s.memory.value;
      assert Watermark(m, step.endpoint) == LastOf(s.accepted, step.endpoint);
      if Watermark(m, step.endpoint) < U64_RANGE - 1 {
        var n := Watermark(m, step.endpoint) + 1;
        GrantPushed(s.accepted, Grant(step.endpoint, n), e);
        if step.endpoint == e {
          CountPushed(GrantedTo(s.accepted, e), n);
        }
      }
    }
  }

  lemma {:induction false} RunCounts(valid: Id -> bool, s: System, steps: seq<Step>, e: Id)
    requires Inv(valid, s) && InStep(valid, s) && IsRun(valid, s, steps) && AllClean(steps) && OnlyReserved(steps, e)
    requires Counts(GrantedTo(s.accepted, e))
    ensures Counts(GrantedTo(After(valid, s, steps).accepted, e))
    decreases |steps|
  {
    hide Inv, InStep, Enabled, Next, Clean, Counts, GrantedTo;
    if steps != [] {
      StepCounts(valid, s, steps[0], e);
      StepInStep(valid, s, steps[0]);
      StepKeepsInv(valid, s, steps[0]);
      RunCounts(valid, Next(valid, s, steps[0]), steps[1..], e);
    }
  }

  /** A fresh store counts: the sequences reserved for an endpoint are 1, 2, 3 and so on, over every run in which no
      write is cut short after its rename, whatever else fails, exits or loses power. */
  lemma ReservationsCount(valid: Id -> bool, s0: System, steps: seq<Step>, e: Id)
    requires NoFile(s0) && IsRun(valid, s0, steps) && AllClean(steps) && OnlyReserved(steps, e)
    ensures var granted := GrantedTo(After(valid, s0, steps).accepted, e);
            forall i :: 0 <= i < |granted| ==> granted[i] == i + 1
  {
    hide IsRun, After, Inv, InStep, AllClean, OnlyReserved;
    NoFileInStep(valid, s0);
    RunCounts(valid, s0, steps, e);
  }

  // ---------- skipping ----------

  /** Since the endpoint's last accepted sequence, the last start opened a file with a higher one: as a step leaves it,
      if `before` says so of before the step. */
  predicate AheadBy(valid: Id -> bool, s: System, step: Step, e: Id, before: bool)
    requires Enabled(valid, s, step)
  {
    if step.Start? then Watermark(Open(valid, s.disk.visible).value, e) > LastOf(s.accepted, e)
    else if |GrantedTo(Next(valid, s, step).accepted, e)| > |GrantedTo(s.accepted, e)| then false
    else before
  }

  predicate Ahead(valid: Id -> bool, s: System, steps: seq<Step>, e: Id, before: bool)
    requires IsRun(valid, s, steps)
    decreases |steps|
  {
    if steps == [] then before
    else Ahead(valid, Next(valid, s, steps[0]), steps[1..], e, AheadBy(valid, s, steps[0], e, before))
  }

  ghost predicate Tracked(s: System, e: Id, ahead: bool) {
    s.memory.Some? ==> Watermark(s.memory.value, e) >= LastOf(s.accepted, e)
                       && (Watermark(s.memory.value, e) > LastOf(s.accepted, e) <==> ahead)
  }

  lemma {:induction false} LastGranted(accepted: seq<Grant>, e: Id)
    ensures GrantedTo(accepted, e) != [] ==> Grant(e, LastOf(accepted, e)) in accepted
  {
    if accepted != [] {
      LastGranted(accepted[..|accepted| - 1], e);
    }
  }

  lemma AdvanceTracked(s: System, e: Id, e': Id, n: U64, fault: Fault, ahead: bool)
    requires s.memory.Some? && Tracked(s, e, ahead)
    ensures var r := Advance(s.memory.value, s.disk, e', n, fault);
            var accepted := if r.result.Success? then s.accepted + [Grant(e', n)] else s.accepted;
            var grown := |GrantedTo(accepted, e)| > |GrantedTo(s.accepted, e)|;
            Tracked(System(Some(r.sequences), r.disk, accepted), e, if grown then false else ahead)
  {
    hide GrantedTo, Serialize;
    GrantPushed(s.accepted, Grant(e', n), e);
  }

  lemma StepTracked(valid: Id -> bool, s: System, step: Step, e: Id, ahead: bool)
    requires Inv(valid, s) && Enabled(valid, s, step) && Tracked(s, e, ahead)
    ensures Tracked(Next(valid, s, step), e, AheadBy(valid, s, step, e, ahead))
  {
    hide GrantedTo, Serialize, Open, Advance, Storable;
    match step
    case TryAdvance(e', n, fault) => AdvanceTracked(s, e, e', n, fault, ahead);
    case TryReserve(e', fault) =>
      var last := Watermark(s.memory.value, e');
      if last < U64_RANGE - 1 {
        AdvanceTracked(s, e, e', last + 1, fault, ahead);
      }
    case Start =>
      LastGranted(s.accepted, e);
      assert Safe(valid, s.disk.visible, s.accepted);
    case _ =>
  }

  lemma {:induction false} RunTracked(valid: Id -> bool, s: System, steps: seq<Step>, e: Id, ahead: bool)
    requires Inv(valid, s) && IsRun(valid, s, steps) && Tracked(s, e, ahead)
    ensures Tracked(After(valid, s, steps), e, Ahead(valid, s, steps, e, ahead))
    decreases |steps|
  {
    hide Inv, Tracked, AheadBy, Enabled, Next;
    if steps != [] {
      StepTracked(valid, s, steps[0], e, ahead);
      StepKeepsInv(valid, s, steps[0]);
      RunTracked(valid, Next(valid, s, steps[0]), steps[1..], e, AheadBy(valid, s, steps[0], e, ahead));
    }
  }

  /** In every run at all, a number handed out is above the last one accepted, and is its successor if and only if the
      last start since then did not open a file with a higher one. */
  lemma SkipsExactly(valid: Id -> bool, s0: System, steps: seq<Step>, e: Id)
    requires Initial(valid, s0) && IsRun(valid, s0, steps) && After(valid, s0, steps).memory.Some?
    requires var s := After(valid, s0, steps); Reserve(s.memory.value, s.disk, e, NoFault).result.Success?
    ensures var s := After(valid, s0, steps);
            var n := Reserve(s.memory.value, s.disk, e, NoFault).result.value;
            n > LastOf(s.accepted, e) && (n - 1 == LastOf(s.accepted, e) <==> !Ahead(valid, s0, steps, e, false))
  {
    hide IsRun, After, Ahead, GrantedTo, Serialize, Open;
    assert Inv(valid, s0);
    RunTracked(valid, s0, steps, e, false);
  }

  /** A write cut short after its rename, and a restart, do skip a number: the first one handed out is 2. */
  lemma SkippedExample(valid: Id -> bool, s0: System, e: Id)
    requires valid(e) && NoFile(s0)
    ensures var first, second := [Start, TryReserve(e, AfterRename), Exit], [Start, TryReserve(e, NoFault)];
            && IsRun(valid, s0, first) && IsRun(valid, After(valid, s0, first), second)
            && After(valid, After(valid, s0, first), second).accepted == [Grant(e, 2)]
  {
    hide Serialize, IsRun, After;
    var m: Sequences := map[];
    assert Open(valid, []) == Success(m);
    OpenSerialized(valid, m[e := 1]);
    hide Open;
    var write := Serialize(m[e := 1]);
    var s1 := Next(valid, s0, Start);
    assert s1 == s0.(memory := Some(m));
    var s2 := Next(valid, s1, TryReserve(e, AfterRename));
    assert s2 == s1.(disk := Disk(write, {[]} + {write}));
    ThreeSteps(valid, s0, Start, TryReserve(e, AfterRename), Exit);
    var s3 := Next(valid, s2, Exit);
    var s4 := Next(valid, s3, Start);
    assert s4 == s3.(memory := Some(m[e := 1]));
    var s5 := Next(valid, s4, TryReserve(e, NoFault));
    assert s5.accepted == [] + [Grant(e, 2)];
    TwoSteps(valid, s3, Start, TryReserve(e, NoFault));
  }

  lemma TwoSteps(valid: Id -> bool, s: System, a: Step, b: Step)
    requires Enabled(valid, s, a) && Enabled(valid, Next(valid, s, a), b)
    ensures IsRun(valid, s, [a, b]) && After(valid, s, [a, b]) == Next(valid, Next(valid, s, a), b)
  {
    hide Enabled, Next;
    var s1 := Next(valid, s, a);
    var s2 := Next(valid, s1, b);
    assert [a, b][1..] == [b] && [b][1..] == [];
    assert IsRun(valid, s2, []) && After(valid, s2, []) == s2;
    assert IsRun(valid, s1, [b]) && After(valid, s1, [b]) == s2;
  }
}
