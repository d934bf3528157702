/** The send statistics of a controller (`src/iroh_dist_controller.erl`): which handshake messages, packets and ticks
    `send_count` counts, over every run. */
module SendCount {
  import opened Octets
  import opened Framing
  import C = Controller
  import D = Carrier
  import opened Node
  import E = Ending

  /** The count the controller has, or takes over when the port call in progress is answered. */
  function Counted(n: Node): (k: nat) {
    if n.phase.Calling? && n.phase.op.Chunk? then n.phase.op.next.sendCount
    else if n.phase.Calling? && n.phase.op.Greet? && n.phase.reply.Accepted? then n.c.sendCount + 1
    else n.c.sendCount
  }

  /** Everything put out is counted, except the ticks taken up without the credit to send them whole. */
  predicate CountSide(n: Node) {
    !n.phase.Exited? ==> Counted(n) + n.uncounted == |n.greetings| + |n.packets|
  }

  lemma ServeKeepsCount(n: Node)
    requires CountSide(n) && Enabled(n, Serve)
    ensures CountSide(Served(n, n.phase.op))
  {
    hide Frame, Fits, D.CallSend, D.CallCredit, D.CallClose, D.Next;
  }

  lemma ResumeKeepsCount(n: Node)
    requires CountSide(n) && Enabled(n, Resume)
    ensures CountSide(Resumed(n, n.phase.op, n.phase.reply.Accepted?))
  {
    hide Frame, Fits;
  }

  /** What a head of the pump does to the count. */
  lemma HeadCounts(c: C.State)
    ensures C.FlushHead(c).Rest? ==> C.FlushHead(c).state.sendCount == c.sendCount && (TakesTick(c) ==> c.credit == 0)
    ensures C.FlushHead(c).Hand? ==>
              C.FlushHead(c).next.sendCount == c.sendCount + if TakesTick(c) && c.credit >= 4 then 1 else 0
    ensures C.FlushHead(c).Ask? ==> !TakesTick(c)
  {
  }

  /** A head of the pump counts the tick it takes up if it can send it whole, and otherwise notes it as uncounted. */
  lemma PumpCounts(n: Node, answer: Option<C.Packet>)
    requires n.phase.Flushing?
    ensures var n' := Pumped(n, answer);
            && Counted(n') + n'.uncounted + |n.packets| == Counted(n) + n.uncounted + |n'.packets|
            && n'.greetings == n.greetings && !n'.phase.Exited?
            && n'.uncounted == n.uncounted + (if TakesTick(n.c) && n.c.credit < 4 then 1 else 0)
            && (TakesTick(n.c) ==> n'.packets == n.packets + [[]])
  {
    hide Frame, Fits, C.FlushHead, TakesTick;
    HeadCounts(n.c);
  }

  lemma EventKeepsCount(n: Node)
    requires CountSide(n) && Enabled(n, TakeEvent)
    ensures CountSide(EventTaken(n, n.s.events[n.seen]))
  {
    hide Feed, TakeOne;
  }

  lemma CallKeepsCount(n: Node, step: Step)
    requires CountSide(n) && n.phase.Idle? && IsCall(step)
    ensures CountSide(Called(n, step))
  {
    hide Feed, TakeOne, Frame, Fits;
  }

  lemma StepKeepsCount(n: Node, step: Step)
    requires CountSide(n) && Enabled(n, step)
    ensures CountSide(Next(n, step))
  {
    hide Served, Resumed, Pumped, EventTaken, Called, D.Next, OpOk;
    match step
    case Serve => ServeKeepsCount(n);
    case Resume => ResumeKeepsCount(n);
    case Pump(answer) => PumpCounts(n, answer);
    case TakeEvent => EventKeepsCount(n);
    case Daemon(_) =>
    case Notify =>
    case TakeNotice =>
    case Die =>
    case _ => CallKeepsCount(n, step);
  }

  lemma {:induction false} RunKeepsCount(n: Node, steps: seq<Step>)
    requires CountSide(n) && IsRun(n, steps)
    ensures CountSide(After(n, steps))
    decreases |steps|
  {
    hide CountSide, Enabled, Next;
    if steps != [] {
      StepKeepsCount(n, steps[0]);
      RunKeepsCount(Next(n, steps[0]), steps[1..]);
    }
  }

  /** In every run: what `getstat` reports as sent is every handshake message, packet and tick put out, less the ticks
      taken up with less than four bytes of credit. */
  lemma SendCountExact(n: Node)
    requires Reachable(n) && n.phase.Idle?
    ensures n.c.sendCount + n.uncounted == |n.greetings| + |n.packets|
  {
    hide IsRun, After;
    var n0, steps :| Start(n0) && IsRun(n0, steps) && After(n0, steps) == n;
    RunKeepsCount(n0, steps);
  }

  /** A tick is counted if and only if there are four bytes of credit when the pump takes it up: not if it leaves in one
      piece. */
  lemma TickCountedExact(n: Node, answer: Option<C.Packet>)
    requires Enabled(n, Pump(answer)) && TakesTick(n.c)
    ensures var n' := Next(n, Pump(answer));
            && n'.packets == n.packets + [[]]
            && (Counted(n') == Counted(n) + 1 <==> n.c.credit >= 4)
            && (n'.uncounted == n.uncounted + 1 <==> n.c.credit < 4)
  {
    hide Pumped;
    PumpCounts(n, answer);
  }

  // ---------- a tick in one piece that is not counted ----------

  /** Four handshake messages can use up the credit to the last byte. */
  lemma CreditSpent(n0: Node) returns (n: Node)
    requires Start(n0)
    ensures E.Greeted(n, 4, 0, 4)
  {
    hide E.Greeted, Start;
    PowValues();
    var large, last := seq(0xFFFF, _ => 0), seq(0xFFFB, _ => 0);
    E.StartGreeted(n0, 4);
    n := E.Greeting(n0, 0, D.CREDIT_WINDOW, 4, large);
    n := E.Greeting(n, 1, D.CREDIT_WINDOW - 0x1_0001, 4, large);
    n := E.Greeting(n, 2, D.CREDIT_WINDOW - 0x2_0002, 4, large);
    n := E.Greeting(n, 3, D.CREDIT_WINDOW - 0x3_0003, 4, last);
  }

  /** A tick taken up with no credit waits whole in the output, uncounted. */
  lemma TickWaitsWhole(n: Node) returns (n': Node)
    requires Reachable(n) && n.phase.Idle? && n.c.mode.Up? && n.c.pendingOut == [] && n.c.credit == 0
    ensures Reachable(n') && n'.phase.Idle? && n'.s == n.s && n'.seen == n.seen && n'.greetings == n.greetings
    ensures n'.c == n.c.(pendingOut := C.Tick(), tickPending := false)
    ensures n'.packets == n.packets + [[]] && n'.uncounted == n.uncounted + 1
  {
    hide Reachable;
    StepReaches(n, DoTick);
    var n1 := Next(n, DoTick);
    StepReaches(n1, Pump(None));
    n' := Next(n1, Pump(None));
  }

  /** The runner writes its first message and announces the credit. */
  lemma CreditAnnounced(n: Node) returns (n': Node)
    requires Reachable(n) && n.s.phase.Starting? && n.s.events == []
    requires n.s.entry.Some? && n.s.entry.value.commands != []
    requires n.s.entry.value.commands[0].Send?
    ensures Reachable(n') && n' == n.(s := n'.s)
    ensures n'.s.events == [D.Opened, D.Credit(|n.s.entry.value.commands[0].bytes|)]
  {
    hide Reachable;
    StepReaches(n, Daemon(D.Open));
    var n1 := Next(n, Daemon(D.Open));
    StepReaches(n1, Daemon(D.Dequeue));
    var n2 := Next(n1, Daemon(D.Dequeue));
    StepReaches(n2, Daemon(D.WriteDone));
    var n3 := Next(n2, Daemon(D.WriteDone));
    StepReaches(n3, Daemon(D.Restore));
    var n4 := Next(n3, Daemon(D.Restore));
    StepReaches(n4, Daemon(D.EmitCredit));
    n' := Next(n4, Daemon(D.EmitCredit));
  }

  /** A run in which the tick then leaves in one piece and is still not counted: the number of pieces is not what
      decides. */
  lemma UncountedTickExample(n0: Node) returns (n: Node)
    requires Start(n0)
    ensures Reachable(n) && n.phase.Calling? && n.phase.op.Chunk? && n.phase.op.bytes == C.Tick() && n.phase.op.again
    ensures n.packets == [[]] && |n.greetings| == 4 && Counted(n) == 4 && n.uncounted == 1
  {
    var n1 := CreditSpent(n0);
    var n2 := E.Completes(n1, 4, 0, 4);
    var n3 := TickWaitsWhole(n2);
    var n4 := CreditAnnounced(n3);
    var k := |n3.s.entry.value.commands[0].bytes|;
    n := TickLeaves(n4, k);
  }

  lemma TickLeaves(n: Node, k: nat) returns (n': Node)
    requires Reachable(n) && n.phase.Idle? && n.c.mode.Up? && n.c.pendingOut == C.Tick()
    requires n.seen == 0 && n.s.events == [D.Opened, D.Credit(k)] && k >= 4
    ensures Reachable(n') && n'.phase.Calling?
    ensures n'.phase.op.Chunk? && n'.phase.op.bytes == C.Tick() && n'.phase.op.again
    ensures n'.packets == n.packets && n'.greetings == n.greetings && n'.uncounted == n.uncounted
    ensures n'.phase.op.next.sendCount == n.c.sendCount
  {
    hide Reachable;
    StepReaches(n, TakeEvent);
    var n1 := Next(n, TakeEvent);
    StepReaches(n1, TakeEvent);
    var n2 := Next(n1, TakeEvent);
    StepReaches(n2, Pump(None));
    n' := Next(n2, Pump(None));
    C.HandConserves(n2.c);
  }
}
