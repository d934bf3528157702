/** What callers of a stream are told (`Dist::send`, `credit`, `close` and the last event of
    `native/iroh_discovery/src/dist.rs`), in terms of what has happened on it: over every interleaving, each answer with
    exactly the circumstances under which it is given, and the reason a stream ends with. */
module Answers {
  import opened Octets
  import opened Carrier

  /** Bytes accepted whose send credit has not come back. */
  function Outstanding(s: Stream): (n: int) { |s.accepted| - s.restored }

  /** Bytes charged to the receiver that it has not granted back. */
  function Ungranted(s: Stream): (n: int) { |s.read| - Uncharged(s.phase) - s.granted }

  /** Commands queued for the runner. */
  function Backlog(s: Stream): (n: nat) { if s.entry.Some? then |s.entry.value.commands| else 0 }

  lemma AccountsOf(s: Stream)
    requires Reachable(s)
    ensures s.entry.Some? <==> HasEntry(s.phase)
    ensures s.entry.Some? ==>
              && s.entry.value.sendCredit == 0x4_0000 - Outstanding(s)
              && s.entry.value.receiveCredit == 0x4_0000 - Ungranted(s)
  {
    hide Reachable, SendSide, ReceiveSide, TraceShape;
    ReachableInv(s);
  }

  /** The entry holds one more command, at its end. */
  predicate Queued(before: Entry, after: Entry, c: Command) {
    before.Some? && after.Some? && after.value.commands == before.value.commands + [c]
  }

  /** `send`: the payload must not be empty or longer than a window; the stream must be in the table; what is
      outstanding must leave room for it in the window of 262144 bytes; and fewer than 64 commands must be queued. A
      refused call changes nothing; an accepted one is queued and charged. */
  lemma SendAnswer(s: Stream, bytes: Octets)
    requires Reachable(s)
    ensures var a, e := CallSend(s.entry, bytes).1, CallSend(s.entry, bytes).0;
            var sized, there := 1 <= |bytes| <= 0x4_0000, HasEntry(s.phase);
            var fits, room := Outstanding(s) + |bytes| <= 0x4_0000, Backlog(s) < 64;
            && (a == Refused(InvalidCredit) <==> !sized)
            && (a == Refused(UnknownStream) <==> sized && !there)
            && (a == Refused(CreditExhausted) <==> sized && there && !fits)
            && (a == Refused(QueueFull) <==> sized && there && fits && !room)
            && (a == Accepted <==> sized && there && fits && room)
            && (a.Refused? ==> e == s.entry)
            && (a.Accepted? ==>
                  Queued(s.entry, e, Send(bytes)) && e.value.sendCredit + |bytes| == s.entry.value.sendCredit)
  {
    hide Reachable;
    AccountsOf(s);
  }

  /** `credit`: likewise, where the credit granted must not exceed what was read and not granted back. */
  lemma CreditAnswer(s: Stream, count: nat)
    requires Reachable(s)
    ensures var a, e := CallCredit(s.entry, count).1, CallCredit(s.entry, count).0;
            var sized, there := 1 <= count <= 0x4_0000, HasEntry(s.phase);
            var owed, room := count <= Ungranted(s), Backlog(s) < 64;
            && (a == Refused(InvalidCredit) <==> !sized || (there && !owed))
            && (a == Refused(UnknownStream) <==> sized && !there)
            && (a == Refused(QueueFull) <==> sized && there && owed && !room)
            && (a == Accepted <==> sized && there && owed && room)
            && a != Refused(CreditExhausted) && (a.Refused? ==> e == s.entry)
            && (a.Accepted? ==>
                  Queued(s.entry, e, Grant(count)) && e.value.receiveCredit == s.entry.value.receiveCredit + count)
  {
    hide Reachable;
    AccountsOf(s);
  }

  /** `close`: the stream must be in the table, with fewer than 64 commands queued. */
  lemma CloseAnswer(s: Stream)
    requires Reachable(s)
    ensures var a, e := CallClose(s.entry).1, CallClose(s.entry).0;
            var there := HasEntry(s.phase);
            && (a == Refused(UnknownStream) <==> !there)
            && (a == Refused(QueueFull) <==> there && Backlog(s) >= 64)
            && (a == Accepted <==> there && Backlog(s) < 64)
            && (a.Refused? ==> e == s.entry) && (a.Accepted? ==> Queued(s.entry, e, Close))
  {
    hide Reachable;
    AccountsOf(s);
  }

  // ---------- why it ended ----------

  /** What has to happen for a stream to end with a reason. */
  predicate Brings(step: Step, reason: Reason) {
    match reason
    case WriteFailed => step.WriteFails?
    case PortClosed => step.EmitFails?
    case LocalClose => step.ApiClose?
    case RemoteClose => step.ReadEnds?
    case ReadFailed => step.ReadFails?
    case InvalidGrant => false
  }

  ghost predicate Happened(steps: seq<Step>, reason: Reason) {
    exists i :: 0 <= i < |steps| && Brings(steps[i], reason)
  }

  /** The reason the runner leaves with, or has told, has happened; and so has any close that was accepted. */
  ghost predicate Accounted(s: Stream, past: seq<Step>) {
    && (s.phase.Leaving? || s.phase.Removed? ==> Happened(past, s.phase.reason))
    && (forall i :: 0 <= i < |s.events| && s.events[i].Closed? ==> Happened(past, s.events[i].reason))
    && (s.closeMark.Some? ==> Happened(past, LocalClose))
  }

  lemma HappenedStays(past: seq<Step>, step: Step, reason: Reason)
    requires Happened(past, reason) || Brings(step, reason)
    ensures Happened(past + [step], reason)
  {
    if Brings(step, reason) {
      assert (past + [step])[|past|] == step;
    } else {
      var i :| 0 <= i < |past| && Brings(past[i], reason);
      assert (past + [step])[i] == past[i];
    }
  }

  /** A step that makes the runner leave brings the reason it leaves with, unless a close was queued. */
  lemma LeavesWith(s: Stream, step: Step)
    requires Inv(s) && Enabled(s, step) && Next(s, step).phase.Leaving? && !s.phase.Leaving?
    ensures Brings(step, Next(s, step).phase.reason)
         || (Next(s, step).phase.reason == LocalClose && s.closeMark.Some?)
  {
    hide Accounts, TraceShape, QueuedBytes, BytesBeforeClose, DataOf, CreditOf, QueuedGrants;
    if step.Dequeue? && s.entry.Some? {
      match s.entry.value.commands[0]
      case Send(_) =>
      case Grant(count) => DequeuedGrant(s, count);
      case Close => assert Close in s.entry.value.commands;
    }
  }

  lemma StepAccounted(s: Stream, step: Step, past: seq<Step>)
    requires Inv(s) && Enabled(s, step) && Accounted(s, past)
    ensures Accounted(Next(s, step), past + [step])
  {
    hide Inv, Happened, Brings, Accounts, Dequeued, CallSend, CallCredit, CallClose, RestoreCredit, DebitCredit;
    var s' := Next(s, step);
    forall reason | Happened(past, reason) || Brings(step, reason)
      ensures Happened(past + [step], reason)
    {
      HappenedStays(past, step, reason);
    }
    if s'.phase.Leaving? && !s.phase.Leaving? {
      LeavesWith(s, step);
    }
    StepShapes(s, step);
  }

  /** Where the runner's reason, the closing event and the mark of a close come from. */
  lemma StepShapes(s: Stream, step: Step)
    requires Enabled(s, step)
    ensures var s' := Next(s, step);
            && (s'.phase.Leaving? && s.phase.Leaving? ==> s'.phase == s.phase)
            && (s'.phase.Removed? ==> (s.phase.Leaving? || s.phase.Removed?) && s'.phase.reason == s.phase.reason)
            && (s'.events == s.events || (|s'.events| == |s.events| + 1 && s.events <= s'.events))
            && (forall i :: |s.events| <= i < |s'.events| && s'.events[i].Closed? ==>
                  s.phase.Removed? && s'.events[i].reason == s.phase.reason)
            && (s'.closeMark.Some? ==> s.closeMark.Some? || Brings(step, LocalClose))
  {
    hide CallSend, CallCredit, CallClose, RestoreCredit, DebitCredit;
  }

  lemma {:induction false} RunAccounted(s: Stream, steps: seq<Step>, past: seq<Step>)
    requires Inv(s) && IsRun(s, steps) && Accounted(s, past)
    ensures Accounted(After(s, steps), past + steps)
    decreases |steps|
  {
    hide Inv, Accounted, Enabled, Next;
    if steps == [] {
      assert past + steps == past;
    } else {
      StepAccounted(s, steps[0], past);
      StepKeepsInv(s, steps[0]);
      RunAccounted(Next(s, steps[0]), steps[1..], past + [steps[0]]);
      assert past + [steps[0]] + steps[1..] == past + steps;
    }
  }

  /** The reason a stream is reported closed with is something that happened to it: the write that failed, the events
      nobody took, the close somebody called, or the end or failure of its input. It is never an invalid grant. */
  lemma ReasonTold(s0: Stream, steps: seq<Step>, i: nat)
    requires Installed(s0) && IsRun(s0, steps)
    requires var es := After(s0, steps).events; i < |es| && es[i].Closed?
    ensures var reason := After(s0, steps).events[i].reason;
            reason != InvalidGrant && exists j :: 0 <= j < |steps| && Brings(steps[j], reason)
  {
    hide Inv, IsRun, After;
    InstalledInv(s0);
    RunAccounted(s0, steps, []);
    assert [] + steps == steps;
  }
}
