/** How a controller ends and what it leaves behind (`src/iroh_dist_controller.erl` over
    `native/iroh_discovery/src/dist.rs`): exactly when its stream is still in the daemon's table with nobody to close
    it, and runs in which that happens. */
module Ending {
  import opened Octets
  import opened Framing
  import C = Controller
  import D = Carrier
  import opened Node

  /** The stream's runner goes on and no close is queued for it. */
  predicate Abandoned(s: D.Stream) {
    D.Live(s.phase) && s.entry.Some? && D.Close !in s.entry.value.commands
  }

  /** The controller's close has been accepted, and the answer is on its way. */
  predicate CloseAccepted(n: Node) { n.phase.Calling? && n.phase.op.Hangup? && n.phase.reply.Accepted? }

  /** Until the controller ends, a close was accepted exactly if it is its last request. */
  predicate CloseSide(n: Node) { !n.phase.Exited? ==> (n.s.closeMark.Some? <==> CloseAccepted(n)) }

  lemma ServeKeepsClose(n: Node)
    requires CloseSide(n) && Enabled(n, Serve)
    ensures CloseSide(Served(n, n.phase.op))
  {
    hide Frame, Fits;
  }

  lemma DaemonKeepsClose(s: D.Stream, d: D.Step)
    requires D.Enabled(s, d) && !d.ApiClose?
    ensures D.Next(s, d).closeMark == s.closeMark
  {
  }

  lemma PumpRequests(n: Node, answer: Option<C.Packet>)
    requires n.phase.Flushing?
    ensures !CloseAccepted(Pumped(n, answer))
  {
    hide Frame, Fits, C.FlushHead;
  }

  lemma EventRequests(n: Node, e: D.Event)
    requires n.phase.Idle?
    ensures !CloseAccepted(EventTaken(n, e))
  {
    hide C.ConsumeInput;
  }

  lemma CallRequests(n: Node, step: Step)
    requires n.phase.Idle? && IsCall(step)
    ensures !CloseAccepted(Called(n, step))
  {
    hide Frame, Fits, C.Recv, C.PutPackets;
  }

  /** What the controller does by itself neither accepts a close nor, while it lives, forgets one. */
  lemma ControllerKeepsClose(n: Node, step: Step)
    requires Enabled(n, step) && !step.Daemon? && !step.Serve?
    ensures !Next(n, step).phase.Exited? ==> (CloseAccepted(Next(n, step)) <==> CloseAccepted(n))
  {
    hide Pumped, EventTaken, Called, OpOk;
    match step
    case Resume =>
    case Pump(answer) => PumpRequests(n, answer);
    case TakeEvent => EventRequests(n, n.s.events[n.seen]);
    case Notify =>
    case TakeNotice =>
    case Die =>
    case _ => CallRequests(n, step);
  }

  lemma StepKeepsClose(n: Node, step: Step)
    requires CloseSide(n) && Enabled(n, step)
    ensures CloseSide(Next(n, step))
  {
    hide Served, Pumped, EventTaken, Called, D.Next, D.Enabled, OpOk;
    match step
    case Serve => ServeKeepsClose(n);
    case Daemon(d) => DaemonKeepsClose(n.s, d);
    case _ =>
      OthersKeepStream(n, step);
      ControllerKeepsClose(n, step);
  }

  lemma {:induction false} RunKeepsClose(n: Node, steps: seq<Step>)
    requires CloseSide(n) && IsRun(n, steps)
    ensures CloseSide(After(n, steps))
    decreases |steps|
  {
    hide CloseSide, Enabled, Next;
    if steps != [] {
      StepKeepsClose(n, steps[0]);
      RunKeepsClose(Next(n, steps[0]), steps[1..]);
    }
  }

  lemma ReachableClose(n: Node)
    requires Reachable(n)
    ensures CloseSide(n)
  {
    hide IsRun, After;
    var n0, steps :| Start(n0) && IsRun(n0, steps) && After(n0, steps) == n;
    RunKeepsClose(n0, steps);
  }

  lemma ExitingStep(n: Node, step: Step)
    requires !n.phase.Exited? && Enabled(n, step) && Next(n, step).phase.Exited?
    ensures !step.Daemon? && !step.Serve?
  {
    hide Frame, Fits, C.ConsumeInput, C.Recv, C.PutPackets, C.FlushHead, D.Next;
  }

  /** What ends a controller, and nothing else does: being killed, the stream's Closed event, the answer to a close, a
      refused chunk of the pump, a handshake message too long to frame, and completing the handshake twice. A refused
      handshake message does not. */
  lemma EndsExactly(n: Node, step: Step)
    requires !n.phase.Exited? && Enabled(n, step)
    ensures Next(n, step).phase.Exited? <==>
              || step.Die?
              || (step.TakeEvent? && n.s.events[n.seen].Closed?)
              || (step.Resume? && (n.phase.op.Hangup? || (n.phase.op.Chunk? && n.phase.reply.Refused?)))
              || (step.DoSend? && n.c.mode.Handshake? && |step.payload| >= 65536)
              || (step.Complete? && n.c.mode.Up?)
  {
    hide Served, Pumped, EventTaken, Called, D.Next, Frame, Fits;
    match step
    case Serve => ServeGoesOn(n, n.phase.op);
    case Pump(answer) => PumpGoesOn(n, answer);
    case TakeEvent => EventEnds(n, n.s.events[n.seen]);
    case Daemon(_) =>
    case Resume =>
    case Notify =>
    case TakeNotice =>
    case Die =>
    case _ => CallEnds(n, step);
  }

  lemma ServeGoesOn(n: Node, op: Op)
    requires op.Greet? ==> Fits(2, op.payload)
    ensures !Served(n, op).phase.Exited?
  {
    hide D.Next, D.CallSend, D.CallCredit, D.CallClose, Frame, Fits;
  }

  lemma PumpGoesOn(n: Node, answer: Option<C.Packet>)
    requires n.phase.Flushing?
    ensures !Pumped(n, answer).phase.Exited?
  {
    hide C.FlushHead;
  }

  lemma EventEnds(n: Node, e: D.Event)
    requires n.phase.Idle?
    ensures EventTaken(n, e).phase.Exited? <==> e.Closed?
  {
    hide C.ConsumeInput;
  }

  lemma CallEnds(n: Node, step: Step)
    requires n.phase.Idle? && IsCall(step)
    ensures Called(n, step).phase.Exited? <==>
              || (step.DoSend? && n.c.mode.Handshake? && |step.payload| >= 65536)
              || (step.Complete? && n.c.mode.Up?)
  {
    hide C.Recv, C.PutPackets, Frame;
    PowValues();
  }

  /** A controller that ends leaves its stream behind, running and with no close queued, if and only if the stream's
      runner is still going and no close of the controller was accepted: so after a refused send, a refused close, a
      handshake message that does not fit, a second completion of the handshake, or a death from outside. */
  lemma ExitAbandons(n: Node, step: Step)
    requires Reachable(n) && !n.phase.Exited? && Enabled(n, step) && Next(n, step).phase.Exited?
    ensures Next(n, step).s == n.s
    ensures Abandoned(Next(n, step).s) <==> D.Live(n.s.phase) && !CloseAccepted(n)
  {
    hide Reachable, Enabled, Next, Books, Flows, D.Accounts, D.ReceiveSide, D.TraceShape;
    ReachableInv(n);
    ReachableClose(n);
    ExitingStep(n, step);
    OthersKeepStream(n, step);
  }

  /** And then nobody closes it: only the network or its runner's failure can end it. */
  lemma {:induction false} AbandonedForGood(n: Node, steps: seq<Step>)
    requires n.phase.Exited? && IsRun(n, steps)
    ensures After(n, steps).phase.Exited? && After(n, steps).s.closeMark == n.s.closeMark
    decreases |steps|
  {
    hide D.Next, D.Enabled;
    if steps != [] {
      if steps[0].Daemon? {
        DaemonKeepsClose(n.s, steps[0].step);
      }
      AbandonedForGood(Next(n, steps[0]), steps[1..]);
    }
  }

  // ---------- runs ----------

  /** A handshake that has sent `k` messages, with `credit` left and the runner not started. */
  ghost predicate Greeted(n: Node, k: nat, credit: nat, least: nat) {
    && Reachable(n) && n.phase.Idle? && n.c.mode.Handshake? && n.c.credit == credit && n.c.sendCount == k
    && n.c.buffer == [] && n.c.pendingOut == [] && !n.c.distReady && !n.c.tickPending && !n.earlyTick
    && |n.greetings| == k && n.packets == [] && n.uncounted == 0 && n.seen == 0
    && n.s.phase.Starting? && n.s.events == [] && n.s.entry.Some? && n.s.entry.value.sendCredit == credit
    && Sends(n.s.entry.value.commands, k, least)
  }

  /** `k` queued sends of at least `least` bytes. */
  ghost predicate Sends(cs: seq<D.Command>, k: nat, least: nat) {
    |cs| == k && forall i :: 0 <= i < k ==> cs[i].Send? && |cs[i].bytes| >= least
  }

  lemma StartGreeted(n: Node, least: nat)
    requires Start(n)
    ensures Greeted(n, 0, D.CREDIT_WINDOW, least)
  {
    assert IsRun(n, []) && After(n, []) == n;
  }

  lemma Greeting(n: Node, k: nat, credit: nat, least: nat, payload: Octets) returns (n': Node)
    requires Greeted(n, k, credit, least) && k < D.COMMAND_QUEUE
    requires Fits(2, payload) && least <= |Frame(2, payload)| <= credit
    ensures Greeted(n', k + 1, credit - |Frame(2, payload)|, least)
  {
    hide Reachable;
    var f := Frame(2, payload);
    var n1 := Next(n, DoSend(payload));
    StepReaches(n, DoSend(payload));
    assert n1.phase == Request(Greet(payload));
    var n2 := Next(n1, Serve);
    StepReaches(n1, Serve);
    assert D.CallSend(n.s.entry, f).1.Accepted?;
    n' := Next(n2, Resume);
    StepReaches(n2, Resume);
  }

  lemma {:induction false} GreetMany(n: Node, k: nat) returns (n': Node)
    requires Start(n) && k <= D.COMMAND_QUEUE
    ensures Greeted(n', k, D.CREDIT_WINDOW - 2 * k, 2)
  {
    hide Greeted, Start;
    if k == 0 {
      StartGreeted(n, 2);
      n' := n;
    } else {
      var n1 := GreetMany(n, k - 1);
      n' := Greeting(n1, k - 1, D.CREDIT_WINDOW - 2 * (k - 1), 2, []);
    }
  }

  /** Completing the handshake on an empty buffer. */
  lemma Completes(n: Node, k: nat, credit: nat, least: nat) returns (n': Node)
    requires Greeted(n, k, credit, least)
    ensures Reachable(n') && n'.phase.Idle? && n'.c == n.c.(mode := C.Up) && n'.s == n.s && n'.seen == n.seen
    ensures n'.greetings == n.greetings && n'.packets == n.packets && n'.uncounted == n.uncounted
  {
    hide Reachable;
    StepReaches(n, Complete);
    n' := Next(n, Complete);
    assert [] + n.c.buffer == n.c.buffer == [];
    assert Feed(4, [], n.c.buffer) == Fed([], []);
  }

  /** The pump hands a tick that is due to the port. */
  lemma TickHanded(n: Node) returns (n': Node)
    requires Reachable(n) && n.phase.Idle? && n.c.mode.Up? && n.c.pendingOut == [] && n.c.credit >= 4
    ensures Reachable(n') && n'.s == n.s && n'.phase.Calling? && n'.phase.reply.Awaited?
    ensures n'.phase.op.Chunk? && n'.phase.op.bytes == C.Tick() && OpOk(n'.c, n'.phase.op)
  {
    hide Reachable;
    StepReaches(n, DoTick);
    var n1 := Next(n, DoTick);
    StepReaches(n1, Pump(None));
    n' := Next(n1, Pump(None));
    C.HandConserves(n1.c);
  }

  /** A refused send does leave a stream behind: after 64 queued messages a tick meets a full queue, and the controller
      ends with its stream running. */
  lemma RefusedSendExample(n0: Node) returns (n: Node)
    requires Start(n0)
    ensures Reachable(n) && Enabled(n, Resume) && n.phase.op.Chunk? && n.phase.reply.Refused?
    ensures Next(n, Resume).phase.Exited? && Abandoned(Next(n, Resume).s)
  {
    var n1 := GreetMany(n0, D.COMMAND_QUEUE);
    var n2 := Completes(n1, D.COMMAND_QUEUE, D.CREDIT_WINDOW - 2 * D.COMMAND_QUEUE, 2);
    var n3 := TickHanded(n2);
    hide Reachable, Greeted;
    FullQueueRefuses(n1, n3);
    n := Next(n3, Serve);
    StepReaches(n3, Serve);
  }

  lemma FullQueueRefuses(n1: Node, n3: Node)
    requires Greeted(n1, D.COMMAND_QUEUE, D.CREDIT_WINDOW - 2 * D.COMMAND_QUEUE, 2) && n3.s == n1.s
    ensures Abandoned(n3.s)
    ensures D.CallSend(n3.s.entry, C.Tick()) == (n3.s.entry, D.Refused(D.QueueFull))
    ensures D.CallClose(n3.s.entry) == (n3.s.entry, D.Refused(D.QueueFull))
  {
    hide Reachable;
  }

  /** So does a refused close. */
  lemma RefusedCloseExample(n0: Node) returns (n: Node)
    requires Start(n0)
    ensures Reachable(n) && Enabled(n, Resume) && n.phase.op.Hangup? && n.phase.reply.Refused?
    ensures Next(n, Resume).phase.Exited? && Abandoned(Next(n, Resume).s)
  {
    var n1 := GreetMany(n0, D.COMMAND_QUEUE);
    hide Reachable;
    StepReaches(n1, DoClose);
    var n2 := Next(n1, DoClose);
    FullQueueRefuses(n1, n2);
    StepReaches(n2, Serve);
    n := Next(n2, Serve);
  }

  /** And so does a handshake message of 65536 bytes. */
  lemma OversizeExample(n0: Node)
    requires Start(n0)
    ensures Reachable(n0) && Enabled(n0, DoSend(seq(0x1_0000, _ => 0)))
    ensures var n := Next(n0, DoSend(seq(0x1_0000, _ => 0))); n.phase.Exited? && Abandoned(n.s)
  {
    StartGreeted(n0, 0);
    PowValues();
  }
}
