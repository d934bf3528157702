/** The daemon's side of one distribution stream (`native/iroh_discovery/src/dist.rs`): the table
    entry under the mutex, the per-stream task with its private receive window, the bounded
    command queue between them and the event channel out of the runner. */
module Carrier {
  import opened Octets

  const CREDIT_WINDOW: nat := 0x4_0000
  const DATA_CHUNK: nat := 0x4000
  const COMMAND_QUEUE: nat := 64
  const USIZE_RANGE: nat := 0x1_0000_0000_0000_0000

  datatype Command = Send(bytes: Octets) | Grant(count: nat) | Close
  datatype Reason = WriteFailed | PortClosed | InvalidGrant | LocalClose | RemoteClose | ReadFailed
  datatype Event = Opened | Data(bytes: Octets) | Credit(count: nat) | Closed(reason: Reason)
  datatype Error = UnknownStream | CreditExhausted | QueueFull | InvalidCredit
  datatype Answer = Accepted | Refused(error: Error)

  /** The table entry. The queue is the channel whose sender the entry owns. */
  datatype StreamState = StreamState(commands: seq<Command>, sendCredit: nat, receiveCredit: nat)

  type Entry = Option<StreamState>

  // ---------- calls under the mutex ----------

  function Push(s: StreamState, c: Command): (s': StreamState) {
    s.(commands := s.commands + [c])
  }

  /** `Dist::send`. */
  function CallSend(e: Entry, bytes: Octets): (r: (Entry, Answer)) {
    if bytes == [] || |bytes| > CREDIT_WINDOW then (e, Refused(InvalidCredit))
    else if e.None? then (e, Refused(UnknownStream))
    else if |bytes| > e.value.sendCredit then (e, Refused(CreditExhausted))
    else if |e.value.commands| >= COMMAND_QUEUE then (e, Refused(QueueFull))
    else (Some(Push(e.value, Send(bytes)).(sendCredit := e.value.sendCredit - |bytes|)), Accepted)
  }

  /** `Dist::credit`. */
  function CallCredit(e: Entry, count: nat): (r: (Entry, Answer)) {
    if count == 0 || count > CREDIT_WINDOW then (e, Refused(InvalidCredit))
    else if e.None? then (e, Refused(UnknownStream))
    else if e.value.receiveCredit + count > CREDIT_WINDOW then (e, Refused(InvalidCredit))
    else if |e.value.commands| >= COMMAND_QUEUE then (e, Refused(QueueFull))
    else (Some(Push(e.value, Grant(count)).(receiveCredit := e.value.receiveCredit + count)), Accepted)
  }

  /** `Dist::close`. */
  function CallClose(e: Entry): (r: (Entry, Answer)) {
    if e.None? then (e, Refused(UnknownStream))
    else if |e.value.commands| >= COMMAND_QUEUE then (e, Refused(QueueFull))
    else (Some(Push(e.value, Close)), Accepted)
  }

  /** The runner hands send credit back after a completed write, clamped to the window. */
  function RestoreCredit(e: Entry, count: nat): (r: Entry) {
    if e.None? then e else
    var sum := e.value.sendCredit + count;
    Some(e.value.(sendCredit := if sum > CREDIT_WINDOW then CREDIT_WINDOW else sum))
  }

  /** The runner charges bytes it has read; machine subtraction would wrap below zero. */
  function DebitCredit(e: Entry, count: nat): (r: Entry) {
    if e.None? then e else Some(e.value.(receiveCredit := WrappingSub(e.value.receiveCredit, count)))
  }

  function WrappingSub(a: nat, b: nat): (r: nat) {
    if b <= a then a - b else (a - b) % USIZE_RANGE
  }

  // ---------- one stream as a transition system ----------

  /** Where the runner stands between two points at which other threads can run. */
  datatype Phase =
    | Starting                          // entry installed, first event not sent yet
    | Selecting                         // in `select!`
    | Writing(bytes: Octets)            // Send dequeued, `write_all` pending
    | Written(bytes: Octets)            // write done, send credit not returned yet
    | Restored(count: nat)              // credit returned, Credit event not sent yet
    | Received(bytes: Octets)           // bytes read, shared credit not charged yet
    | Debited(bytes: Octets)            // charged, Data event not sent yet
    | Leaving(reason: Reason)           // loop left, entry still in the table
    | Removed(reason: Reason)           // entry gone, Closed event not sent yet
    | Ended

  /** `window` is the runner's private `receive_credit`. The fields after `events` are history: every
      accepted payload byte, every byte written to and read from the network, the send credit
      returned and the receive credit granted so far, and how many payload bytes had been
      accepted when the first close was accepted. */
  datatype Stream = Stream(
    entry: Entry, window: nat, phase: Phase, events: seq<Event>,
    accepted: Octets, written: Octets, read: Octets, restored: nat, granted: nat, closeMark: Option<nat>)

  datatype Step =
    | Open | OpenFails
    | ApiSend(bytes: Octets) | ApiCredit(count: nat) | ApiClose
    | Dequeue | WriteDone | WriteFails(sent: nat) | Restore | EmitCredit
    | Read(bytes: Octets) | ReadEnds | ReadFails | Debit | EmitData
    | EmitFails | Remove | EmitClosed | EmitClosedFails

  /** What `install_stream` and `run_stream` start from. */
  predicate Installed(s: Stream) {
    && s.phase.Starting? && s.window == CREDIT_WINDOW && s.entry.Some?
    && s.entry.value.commands == [] && s.entry.value.sendCredit == s.entry.value.receiveCredit == CREDIT_WINDOW
    && s.events == [] && s.accepted == [] && s.written == [] && s.read == []
    && s.restored == s.granted == 0 && s.closeMark.None?
  }

  predicate Enabled(s: Stream, step: Step) {
    match step
    case Open => s.phase.Starting?
    case OpenFails => s.phase.Starting?
    case ApiSend(_) => true
    case ApiCredit(_) => true
    case ApiClose => true
    case Dequeue => s.phase.Selecting? && (s.entry.Some? ==> s.entry.value.commands != [])
    case WriteDone => s.phase.Writing?
    case WriteFails(sent) => s.phase.Writing? && sent <= |s.phase.bytes|
    case Restore => s.phase.Written?
    case EmitCredit => s.phase.Restored?
    case Read(bytes) => s.phase.Selecting? && 0 < |bytes| <= DATA_CHUNK && |bytes| <= s.window
    case ReadEnds => s.phase.Selecting? && s.window > 0
    case ReadFails => s.phase.Selecting? && s.window > 0
    case Debit => s.phase.Received?
    case EmitData => s.phase.Debited?
    case EmitFails => s.phase.Restored? || s.phase.Debited?
    case Remove => s.phase.Leaving?
    case EmitClosed => s.phase.Removed?
    case EmitClosedFails => s.phase.Removed?
  }

  /** The `commands.recv()` arm of `run_stream`. */
  function Dequeued(s: Stream): (s': Stream)
    requires Enabled(s, Dequeue)
  {
    if s.entry.None? then s.(phase := Leaving(PortClosed)) else
    var state := s.entry.value;
    var rest := s.(entry := Some(state.(commands := state.commands[1..])));
    match state.commands[0]
    case Send(bytes) => rest.(phase := Writing(bytes))
    case Grant(count) =>
      if s.window + count > CREDIT_WINDOW then rest.(phase := Leaving(InvalidGrant))
      else rest.(window := s.window + count)
    case Close => rest.(phase := Leaving(LocalClose))
  }

  function Next(s: Stream, step: Step): (s': Stream)
    requires Enabled(s, step)
  {
    match step
    case Open => s.(phase := Selecting, events := s.events + [Opened])
    case OpenFails => s.(phase := Ended, entry := None)
    case ApiSend(bytes) =>
      var r := CallSend(s.entry, bytes);
      s.(entry := r.0, accepted := if r.1.Accepted? then s.accepted + bytes else s.accepted)
    case ApiCredit(count) =>
      var r := CallCredit(s.entry, count);
      s.(entry := r.0, granted := if r.1.Accepted? then s.granted + count else s.granted)
    case ApiClose =>
      var r := CallClose(s.entry);
      s.(entry := r.0, closeMark := if r.1.Accepted? && s.closeMark.None? then Some(|s.accepted|) else s.closeMark)
    case Dequeue => Dequeued(s)
    case WriteDone => s.(phase := Written(s.phase.bytes), written := s.written + s.phase.bytes)
    case WriteFails(sent) => s.(phase := Leaving(WriteFailed), written := s.written + s.phase.bytes[..sent])
    case Restore =>
      var n := |s.phase.bytes|;
      s.(phase := Restored(n), entry := RestoreCredit(s.entry, n), restored := s.restored + n)
    case EmitCredit => s.(phase := Selecting, events := s.events + [Credit(s.phase.count)])
    case Read(bytes) => s.(phase := Received(bytes), window := s.window - |bytes|, read := s.read + bytes)
    case ReadEnds => s.(phase := Leaving(RemoteClose))
    case ReadFails => s.(phase := Leaving(ReadFailed))
    case Debit => s.(phase := Debited(s.phase.bytes), entry := DebitCredit(s.entry, |s.phase.bytes|))
    case EmitData => s.(phase := Selecting, events := s.events + [Data(s.phase.bytes)])
    case EmitFails => s.(phase := Leaving(PortClosed))
    case Remove => s.(phase := Removed(s.phase.reason), entry := None)
    case EmitClosed => s.(phase := Ended, events := s.events + [Closed(s.phase.reason)])
    case EmitClosedFails => s.(phase := Ended)
  }

  // ---------- what queues and traces carry ----------

  function Payload(c: Command): (s: Octets) { if c.Send? then c.bytes else [] }

  function Granted(c: Command): (n: nat) { if c.Grant? then c.count else 0 }

  /** Payload bytes waiting in the queue, in order. */
  function QueuedBytes(cs: seq<Command>): (s: Octets) {
    if cs == [] then [] else Payload(cs[0]) + QueuedBytes(cs[1..])
  }

  /** Receive credit waiting in the queue. */
  function QueuedGrants(cs: seq<Command>): (n: nat) {
    if cs == [] then 0 else Granted(cs[0]) + QueuedGrants(cs[1..])
  }

  /** Payload bytes queued ahead of the first Close. */
  function BytesBeforeClose(cs: seq<Command>): (s: Octets) {
    if cs == [] || cs[0].Close? then [] else Payload(cs[0]) + BytesBeforeClose(cs[1..])
  }

  /** Bytes carried by the Data events of a trace, in order. */
  function DataOf(es: seq<Event>): (s: Octets) {
    if es == [] then [] else (if es[0].Data? then es[0].bytes else []) + DataOf(es[1..])
  }

  /** Send credit announced by the Credit events of a trace. */
  function CreditOf(es: seq<Event>): (n: nat) {
    if es == [] then 0 else (if es[0].Credit? then es[0].count else 0) + CreditOf(es[1..])
  }

  lemma {:induction false} QueueAppend(cs: seq<Command>, c: Command)
    ensures QueuedBytes(cs + [c]) == QueuedBytes(cs) + Payload(c)
    ensures QueuedGrants(cs + [c]) == QueuedGrants(cs) + Granted(c)
  {
    if cs == [] {
      assert cs + [c] == [c] && [c][1..] == [];
    } else {
      QueueAppend(cs[1..], c);
      assert (cs + [c])[1..] == cs[1..] + [c] && (cs + [c])[0] == cs[0];
      Associative(Payload(cs[0]), QueuedBytes(cs[1..]), Payload(c));
    }
  }

  lemma {:induction false} BeforeCloseAppend(cs: seq<Command>, c: Command)
    ensures Close in cs ==> BytesBeforeClose(cs + [c]) == BytesBeforeClose(cs)
    ensures Close !in cs ==> BytesBeforeClose(cs + [c]) == QueuedBytes(cs + [c])
  {
    if cs == [] {
      assert cs + [c] == [c] && [c][1..] == [];
    } else {
      BeforeCloseAppend(cs[1..], c);
      assert (cs + [c])[1..] == cs[1..] + [c];
      assert cs == [cs[0]] + cs[1..];
    }
  }

  lemma {:induction false} TraceAppend(es: seq<Event>, more: seq<Event>)
    ensures DataOf(es + more) == DataOf(es) + DataOf(more)
    ensures CreditOf(es + more) == CreditOf(es) + CreditOf(more)
  {
    if es == [] {
      assert es + more == more;
    } else {
      TraceAppend(es[1..], more);
      assert (es + more)[1..] == es[1..] + more && (es + more)[0] == es[0];
      Associative(if es[0].Data? then es[0].bytes else [], DataOf(es[1..]), DataOf(more));
    }
  }

  lemma TracePush(es: seq<Event>, e: Event)
    ensures DataOf(es + [e]) == DataOf(es) + (if e.Data? then e.bytes else [])
    ensures CreditOf(es + [e]) == CreditOf(es) + (if e.Credit? then e.count else 0)
  {
    TraceAppend(es, [e]);
    assert [e][1..] == [];
  }

  // ---------- the invariant ----------

  predicate HasEntry(p: Phase) { !(p.Removed? || p.Ended?) }

  /** The loop is still running (or about to). */
  predicate Live(p: Phase) { HasEntry(p) && !p.Leaving? }

  /** Accepted bytes the runner holds and has not written. */
  function Unwritten(p: Phase): (s: Octets) { if p.Writing? then p.bytes else [] }

  /** Accepted bytes the runner holds whose send credit it has not returned. */
  function Unreturned(p: Phase): (n: nat) { if p.Writing? || p.Written? then |p.bytes| else 0 }

  /** Written bytes whose send credit is not returned yet. */
  function Unrestored(p: Phase): (n: nat) { if p.Written? then |p.bytes| else 0 }

  /** Returned send credit not announced by a Credit event yet. */
  function Unannounced(p: Phase): (n: nat) { if p.Restored? then p.count else 0 }

  /** Read bytes not charged to the shared receive credit yet. */
  function Uncharged(p: Phase): (n: nat) { if p.Received? then |p.bytes| else 0 }

  /** Read bytes not forwarded as a Data event yet. */
  function Unforwarded(p: Phase): (s: Octets) { if p.Received? || p.Debited? then p.bytes else [] }

  predicate WellFormed(c: Command) {
    match c
    case Send(bytes) => 0 < |bytes| <= CREDIT_WINDOW
    case Grant(count) => 0 < count <= CREDIT_WINDOW
    case Close => true
  }

  predicate WellFormedQueue(cs: seq<Command>) {
    |cs| <= COMMAND_QUEUE && forall i :: 0 <= i < |cs| ==> WellFormed(cs[i])
  }

  /** What the table entry records at every moment, also while the runner is leaving. */
  predicate Accounts(s: Stream)
    requires s.entry.Some?
  {
    && WellFormedQueue(s.entry.value.commands)
    && s.entry.value.sendCredit + |s.accepted| == CREDIT_WINDOW + s.restored
    && s.entry.value.receiveCredit + |s.read| == CREDIT_WINDOW + s.granted + Uncharged(s.phase)
    && s.entry.value.receiveCredit <= CREDIT_WINDOW
  }

  /** Outbound: accepted bytes are written in order, credit is returned and announced once for
      every byte written, and the first Close stands behind what was accepted before it. */
  predicate SendSide(s: Stream)
    requires s.entry.Some?
  {
    var q := s.entry.value.commands;
    && s.accepted == s.written + Unwritten(s.phase) + QueuedBytes(q)
    && s.restored + Unrestored(s.phase) == |s.written|
    && CreditOf(s.events) + Unannounced(s.phase) == s.restored
    && (s.closeMark.Some? <==> Close in q)
    && (s.closeMark.Some? ==>
          s.closeMark.value == |s.written| + |Unwritten(s.phase)| + |BytesBeforeClose(q)|)
  }

  /** Inbound: the shared receive credit is the private window plus what is still on its way to
      it; read bytes are forwarded in order. */
  predicate ReceiveSide(s: Stream)
    requires s.entry.Some?
  {
    && s.entry.value.receiveCredit == s.window + QueuedGrants(s.entry.value.commands) + Uncharged(s.phase)
    && s.read == DataOf(s.events) + Unforwarded(s.phase)
  }

  /** Events are one Opened, then Data and Credit, then at most one Closed. */
  predicate TraceShape(s: Stream) {
    if s.phase.Starting? then s.events == []
    else if s.phase.Ended? then s.events == [] || TraceBody(s.events) || TraceClosed(s.events)
    else TraceBody(s.events)
  }

  predicate TraceBody(es: seq<Event>) {
    |es| > 0 && es[0].Opened? &&
    forall i :: 1 <= i < |es| ==> es[i].Credit? || (es[i].Data? && 0 < |es[i].bytes| <= 16384)
  }

  predicate TraceClosed(es: seq<Event>) {
    |es| > 1 && es[|es| - 1].Closed? && TraceBody(es[..|es| - 1])
  }

  predicate Inv(s: Stream) {
    && (s.entry.Some? <==> HasEntry(s.phase))
    && (s.entry.Some? ==> Accounts(s))
    && (Live(s.phase) ==> SendSide(s) && ReceiveSide(s))
    && (s.phase.Received? || s.phase.Debited? ==> 0 < |s.phase.bytes| <= DATA_CHUNK)
    && s.written <= s.accepted
    && DataOf(s.events) <= s.read
    && CreditOf(s.events) <= s.restored <= |s.written|
    && (s.phase.Leaving? || s.phase.Removed? ==>
          s.phase.reason != InvalidGrant
          && (s.phase.reason == LocalClose ==> s.closeMark == Some(|s.written|)))
    && TraceShape(s)
  }

  lemma InstalledInv(s: Stream)
    requires Installed(s)
    ensures Inv(s)
  {
  }

  lemma ApiSendKeepsInv(s: Stream, bytes: Octets)
    requires Inv(s)
    ensures Inv(Next(s, ApiSend(bytes)))
  {
    if CallSend(s.entry, bytes).1.Accepted? {
      var q := s.entry.value.commands;
      QueueAppend(q, Send(bytes));
      BeforeCloseAppend(q, Send(bytes));
      Associative(s.written + Unwritten(s.phase), QueuedBytes(q), bytes);
    }
  }

  lemma ApiCreditKeepsInv(s: Stream, count: nat)
    requires Inv(s)
    ensures Inv(Next(s, ApiCredit(count)))
  {
    if CallCredit(s.entry, count).1.Accepted? {
      var q := s.entry.value.commands;
      QueueAppend(q, Grant(count));
      BeforeCloseAppend(q, Grant(count));
    }
  }

  lemma ApiCloseKeepsInv(s: Stream)
    requires Inv(s)
    ensures Inv(Next(s, ApiClose))
  {
    if CallClose(s.entry).1.Accepted? {
      var q := s.entry.value.commands;
      QueueAppend(q, Close);
      BeforeCloseAppend(q, Close);
      assert Close in q + [Close];
    }
  }

  lemma DequeueKeepsInv(s: Stream)
    requires Inv(s) && Enabled(s, Dequeue)
    ensures Inv(Next(s, Dequeue))
  {
    hide DataOf, CreditOf, QueuedGrants;
    var q := s.entry.value.commands;
    assert forall i :: 0 <= i < |q[1..]| ==> q[1..][i] == q[i + 1];
    match q[0]
    case Send(bytes) => DequeuedSend(s, bytes);
    case Grant(count) => DequeuedGrant(s, count);
    case Close =>
  }

  lemma DequeuedSend(s: Stream, bytes: Octets)
    requires Inv(s) && Enabled(s, Dequeue) && s.entry.value.commands[0] == Send(bytes)
    ensures SendSide(Next(s, Dequeue)) && ReceiveSide(Next(s, Dequeue))
  {
    var q := s.entry.value.commands;
    assert Close in q <==> Close in q[1..] by { assert q == [q[0]] + q[1..]; }
    Shuffle(s.written, [], QueuedBytes(q));
    Associative(s.written, bytes, QueuedBytes(q[1..]));
  }

  lemma DequeuedGrant(s: Stream, count: nat)
    requires Inv(s) && Enabled(s, Dequeue) && s.entry.value.commands[0] == Grant(count)
    ensures s.window + count <= CREDIT_WINDOW
    ensures SendSide(Next(s, Dequeue)) && ReceiveSide(Next(s, Dequeue))
  {
    var q := s.entry.value.commands;
    assert Close in q <==> Close in q[1..] by { assert q == [q[0]] + q[1..]; }
    Shuffle([], QueuedBytes(q[1..]), []);
  }

  lemma WriteKeepsInv(s: Stream, step: Step)
    requires Inv(s) && Enabled(s, step)
    requires step.WriteDone? || step.WriteFails? || step.Restore? || step.EmitCredit? || step.EmitFails?
    ensures Inv(Next(s, step))
  {
    hide QueuedBytes, QueuedGrants, BytesBeforeClose, DataOf, CreditOf;
    if step.EmitCredit? { TracePush(s.events, Credit(s.phase.count)); }
  }

  lemma ReadKeepsInv(s: Stream, step: Step)
    requires Inv(s) && Enabled(s, step)
    requires step.Read? || step.ReadEnds? || step.ReadFails? || step.Debit? || step.EmitData?
    ensures Inv(Next(s, step))
  {
    hide QueuedBytes, QueuedGrants, BytesBeforeClose, DataOf, CreditOf;
    if step.EmitData? { TracePush(s.events, Data(s.phase.bytes)); }
  }

  lemma EdgeKeepsInv(s: Stream, step: Step)
    requires Inv(s) && Enabled(s, step)
    requires step.Open? || step.OpenFails? || step.Remove? || step.EmitClosed? || step.EmitClosedFails?
    ensures Inv(Next(s, step))
  {
    hide QueuedGrants, BytesBeforeClose, DataOf, CreditOf;
    if step.Open? { TracePush(s.events, Opened); }
    if step.EmitClosed? {
      TracePush(s.events, Closed(s.phase.reason));
      var es := Next(s, step).events;
      assert es[..|es| - 1] == s.events;
    }
  }

  lemma StepKeepsInv(s: Stream, step: Step)
    requires Inv(s) && Enabled(s, step)
    ensures Inv(Next(s, step))
  {
    match step
    case ApiSend(bytes) => ApiSendKeepsInv(s, bytes);
    case ApiCredit(count) => ApiCreditKeepsInv(s, count);
    case ApiClose => ApiCloseKeepsInv(s);
    case Dequeue => DequeueKeepsInv(s);
    case WriteDone => WriteKeepsInv(s, step);
    case WriteFails(_) => WriteKeepsInv(s, step);
    case Restore => WriteKeepsInv(s, step);
    case EmitCredit => WriteKeepsInv(s, step);
    case EmitFails => WriteKeepsInv(s, step);
    case Read(_) => ReadKeepsInv(s, step);
    case ReadEnds => ReadKeepsInv(s, step);
    case ReadFails => ReadKeepsInv(s, step);
    case Debit => ReadKeepsInv(s, step);
    case EmitData => ReadKeepsInv(s, step);
    case Open => EdgeKeepsInv(s, step);
    case OpenFails => EdgeKeepsInv(s, step);
    case Remove => EdgeKeepsInv(s, step);
    case EmitClosed => EdgeKeepsInv(s, step);
    case EmitClosedFails => EdgeKeepsInv(s, step);
  }

  // ---------- every run ----------

  predicate IsRun(s: Stream, steps: seq<Step>)
    decreases |steps|
  {
    steps == [] || (Enabled(s, steps[0]) && IsRun(Next(s, steps[0]), steps[1..]))
  }

  function After(s: Stream, steps: seq<Step>): (s': Stream)
    requires IsRun(s, steps)
    decreases |steps|
  {
    if steps == [] then s else After(Next(s, steps[0]), steps[1..])
  }

  lemma {:induction false} RunKeepsInv(s: Stream, steps: seq<Step>)
    requires Inv(s) && IsRun(s, steps)
    ensures Inv(After(s, steps))
    decreases |steps|
  {
    if steps != [] {
      StepKeepsInv(s, steps[0]);
      RunKeepsInv(Next(s, steps[0]), steps[1..]);
    }
  }

  /** Reached by some interleaving of API calls by anyone, task steps and network behaviour. */
  ghost predicate Reachable(s: Stream) {
    exists s0: Stream, steps: seq<Step> :: Installed(s0) && IsRun(s0, steps) && After(s0, steps) == s
  }

  lemma {:induction false} RunExtends(s: Stream, steps: seq<Step>, step: Step)
    requires IsRun(s, steps) && Enabled(After(s, steps), step)
    ensures IsRun(s, steps + [step]) && After(s, steps + [step]) == Next(After(s, steps), step)
    decreases |steps|
  {
    hide Enabled, Next;
    if steps == [] {
      assert steps + [step] == [step] && [step][1..] == [];
    } else {
      RunExtends(Next(s, steps[0]), steps[1..], step);
      assert (steps + [step])[1..] == steps[1..] + [step];
    }
  }

  /** What is reached stays reached by one more step. */
  lemma StepReaches(s: Stream, step: Step)
    requires Reachable(s) && Enabled(s, step)
    ensures Reachable(Next(s, step))
  {
    hide Enabled, Next, IsRun, After, Installed;
    var s0, steps :| Installed(s0) && IsRun(s0, steps) && After(s0, steps) == s;
    RunExtends(s0, steps, step);
  }

  lemma ReachableInv(s: Stream)
    requires Reachable(s)
    ensures Inv(s)
  {
    var s0, steps :| Installed(s0) && IsRun(s0, steps) && After(s0, steps) == s;
    InstalledInv(s0);
    RunKeepsInv(s0, steps);
  }

  /** Send credit is conserved: what is free, what is queued and what is in the runner's hands is
      always one window, and handing credit back never meets the clamp. */
  lemma SendWindowConserved(s: Stream)
    requires Reachable(s)
    ensures Live(s.phase) ==> s.entry.Some?
    ensures Live(s.phase) ==>
              s.entry.value.sendCredit + |QueuedBytes(s.entry.value.commands)| + Unreturned(s.phase) == CREDIT_WINDOW
    ensures s.phase.Written? ==>
              RestoreCredit(s.entry, |s.phase.bytes|).value.sendCredit == s.entry.value.sendCredit + |s.phase.bytes|
  {
    ReachableInv(s);
  }

  /** The two receive counters never drift apart, whatever clients grant: the shared one is the
      private one plus what is on its way. So the runner never sees a grant it must reject, neither
      subtraction goes below zero, and the queue is never found closed while the runner listens. */
  lemma ReceiveWindowsAgree(s: Stream)
    requires Reachable(s)
    ensures Live(s.phase) ==> s.entry.Some? && s.entry.value.receiveCredit <= CREDIT_WINDOW
    ensures Live(s.phase) ==>
              s.entry.value.receiveCredit == s.window + QueuedGrants(s.entry.value.commands) + Uncharged(s.phase)
    ensures s.phase.Received? ==> |s.phase.bytes| <= s.entry.value.receiveCredit
    ensures s.phase.Leaving? || s.phase.Removed? ==> s.phase.reason != InvalidGrant
    ensures s.phase.Selecting? && Enabled(s, Dequeue) ==>
              (Next(s, Dequeue).phase.Leaving? <==> s.entry.value.commands[0].Close?)
  {
    ReachableInv(s);
    if s.phase.Selecting? && Enabled(s, Dequeue) {
      match s.entry.value.commands[0]
      case Send(_) =>
      case Grant(count) => DequeuedGrant(s, count);
      case Close =>
    }
  }

  /** Payloads reach the network once and in order; a local close finishes the stream after exactly
      the bytes that had been accepted when the close was accepted. */
  lemma WritesInOrder(s: Stream)
    requires Reachable(s)
    ensures s.written <= s.accepted
    ensures Live(s.phase) ==> s.entry.Some?
    ensures Live(s.phase) ==>
              s.written + Unwritten(s.phase) + QueuedBytes(s.entry.value.commands) == s.accepted
    ensures (s.phase.Leaving? || s.phase.Removed?) && s.phase.reason == LocalClose ==>
              s.closeMark == Some(|s.written|)
  {
    ReachableInv(s);
  }

  /** Each stream reports one opening, then data and credit, then at most one closing, and by then
      its table entry is gone; forwarded data is a prefix of what was read. */
  lemma EventsWellOrdered(s: Stream)
    requires Reachable(s)
    ensures TraceShape(s) && DataOf(s.events) <= s.read
    ensures forall i :: 0 <= i < |s.events| && s.events[i].Closed? ==> i == |s.events| - 1 && s.entry.None?
    ensures CreditOf(s.events) <= |s.written|
  {
    ReachableInv(s);
    if TraceClosed(s.events) {
      var body := s.events[..|s.events| - 1];
      assert forall i :: 0 <= i < |body| ==> s.events[i] == body[i];
    }
  }
}
