/** One end of a connection: the Erlang controller process, the daemon stream it drives through
    synchronous port calls, and the ordered event path back (`src/iroh_dist_controller.erl` on top
    of `native/iroh_discovery/src/dist.rs`). Requests and answers travel separately from the runner,
    so every interleaving is covered; port calls are answered truthfully. */
module Node {
  import opened Octets
  import opened Framing
  import C = Controller
  import D = Carrier

  /** A port call in progress: a pump chunk with the state to adopt afterwards, a handshake frame,
      a receive grant, or a close. */
  datatype Op =
    | Chunk(bytes: Octets, next: C.State, again: bool)
    | Greet(payload: Octets)
    | GrantBack(count: nat)
    | Hangup

  /** A request is on its way to the daemon, or its answer is on its way back. */
  datatype Reply = Awaited | Accepted | Refused

  /** What the controller process is doing. */
  datatype Phase = Idle | Flushing | Calling(op: Op, reply: Reply) | Exited

  /** `seen` counts the events taken from the stream's ordered event path. `armed` is a data
      notification the VM owes, `notice` one it has sent. From `greetings` on the fields are
      history: handshake payloads accepted for sending, packets (ticks are empty packets) put on
      the output, `recv` replies, packets given to the VM, data bytes taken in, whether a tick was
      taken during the handshake and not pumped since, and how many ticks the pump took up without
      the credit to send them whole. */
  datatype Node = Node(
    c: C.State, phase: Phase, s: D.Stream, seen: nat, armed: bool, notice: bool,
    greetings: seq<Octets>, packets: seq<Octets>, replies: seq<Octets>, delivered: seq<Octets>,
    consumed: Octets, earlyTick: bool, uncounted: nat)

  datatype Step =
    | Daemon(step: D.Step)              // the stream task or the network moves
    | Serve                             // the daemon executes the outstanding request
    | Resume                            // the answer reaches the controller
    | Pump(answer: Option<C.Packet>)    // one head of flush_output
    | TakeEvent | Notify | TakeNotice
    | DoSend(payload: Octets) | DoRecv(ref: nat) | DropRecv(ref: nat) | Complete | DoTick | DoClose
    | Die                               // the port is down, or a signal kills the controller

  /** A controller just started on a stream just installed. */
  predicate Start(n: Node) {
    && D.Installed(n.s) && n.seen == 0 && n.phase == Idle && !n.armed && !n.notice && !n.earlyTick
    && C.Initial(n.c, D.CREDIT_WINDOW)
    && |n.greetings| == |n.packets| == |n.replies| == |n.delivered| == |n.consumed| == n.uncounted == 0
  }

  predicate Enabled(n: Node, step: Step) {
    match step
    case Daemon(d) => D.Enabled(n.s, d) && !(d.ApiSend? || d.ApiCredit? || d.ApiClose?)
    case Serve => n.phase.Calling? && n.phase.reply.Awaited? && OpOk(n.c, n.phase.op)
    case Resume => n.phase.Calling? && !n.phase.reply.Awaited? && OpOk(n.c, n.phase.op)
    case Pump(_) => n.phase.Flushing?
    case TakeEvent => n.phase.Idle? && n.seen < |n.s.events|
    case Notify => n.armed
    case TakeNotice => n.phase.Idle? && n.notice
    case DoSend(_) => n.phase.Idle?
    case DoRecv(_) => n.phase.Idle?
    case DropRecv(_) => n.phase.Idle?
    case Complete => n.phase.Idle?
    case DoTick => n.phase.Idle?
    case DoClose => n.phase.Idle?
    case Die => !n.phase.Exited?
  }

  function ReplyTo(a: D.Answer): (r: Reply) { if a.Accepted? then Accepted else Refused }

  function Served(n: Node, op: Op): (n': Node)
    requires op.Greet? ==> Fits(2, op.payload)
  {
    match op
    case Chunk(bytes, _, _) =>
      n.(s := D.Next(n.s, D.ApiSend(bytes)), phase := Calling(op, ReplyTo(D.CallSend(n.s.entry, bytes).1)))
    case Greet(payload) =>
      var frame := Frame(2, payload);
      var answer := D.CallSend(n.s.entry, frame).1;
      n.(s := D.Next(n.s, D.ApiSend(frame)), phase := Calling(op, ReplyTo(answer)),
         greetings := if answer.Accepted? then n.greetings + [payload] else n.greetings)
    case GrantBack(count) =>
      n.(s := D.Next(n.s, D.ApiCredit(count)), phase := Calling(op, ReplyTo(D.CallCredit(n.s.entry, count).1)))
    case Hangup =>
      n.(s := D.Next(n.s, D.ApiClose), phase := Calling(op, ReplyTo(D.CallClose(n.s.entry).1)))
  }

  /** The continuation of `send_available`, `send_bytes`, `handle_stream_event` and
      `terminate_stream` after the port has answered. */
  function Resumed(n: Node, op: Op, ok: bool): (n': Node)
    requires op.Greet? ==> Fits(2, op.payload) && |Frame(2, op.payload)| <= n.c.credit
  {
    match op
    case Chunk(_, next, again) =>
      if ok then n.(c := next, phase := if again then Flushing else Idle) else n.(phase := Exited)
    case Greet(payload) =>
      if ok then
        n.(c := n.c.(credit := n.c.credit - |Frame(2, payload)|, sendCount := n.c.sendCount + 1), phase := Idle)
      else n.(phase := Idle)
    case GrantBack(_) => n.(phase := if ok then Idle else Request(Hangup))
    case Hangup => n.(phase := Exited)
  }

  function Request(op: Op): (p: Phase) { Calling(op, Awaited) }

  /** The pump's next head takes up a due tick. */
  predicate TakesTick(c: C.State) { c.mode.Up? && c.pendingOut == [] && c.tickPending }

  function Pumped(n: Node, answer: Option<C.Packet>): (n': Node) {
    var ticks := if TakesTick(n.c) then [[]] else [];
    var n1 := n.(packets := n.packets + ticks, earlyTick := n.earlyTick && n.c.mode.Handshake?,
                 uncounted := if TakesTick(n.c) && n.c.credit < 4 then n.uncounted + 1 else n.uncounted);
    match C.FlushHead(n.c)
    case Rest(c) => n1.(c := c, phase := Idle)
    case Hand(chunk, next, again) => n1.(phase := Request(Chunk(chunk, next, again)))
    case Ask =>
      if answer.None? then n1.(c := n.c.(distReady := false), armed := true, phase := Idle)
      else n1.(c := C.Offered(n.c, answer.value), packets := n.packets + [answer.value])
  }

  function Absorb(n: Node, i: C.Input): (n': Node) {
    n.(c := i.state, replies := n.replies + i.replies, delivered := n.delivered + i.delivered)
  }

  function EventTaken(n: Node, e: D.Event): (n': Node) {
    var n1 := n.(seen := n.seen + 1);
    match e
    case Opened => n1
    case Data(bytes) =>
      Absorb(n1, C.ConsumeInput(n.c, bytes)).(consumed := n.consumed + bytes, phase := Request(GrantBack(|bytes|)))
    case Credit(count) => n1.(c := n.c.(credit := n.c.credit + count), phase := Flushing)
    case Closed(_) => n1.(phase := Exited)
  }

  /** A call from the distribution layer, or the timeout of one. */
  predicate IsCall(step: Step) {
    step.DoSend? || step.DoRecv? || step.DropRecv? || step.Complete? || step.DoTick? || step.DoClose?
  }

  function Called(n: Node, step: Step): (n': Node)
    requires IsCall(step)
  {
    match step
    case DoSend(payload) =>
      if n.c.mode.Up? then n
      else if !Fits(2, payload) then n.(phase := Exited)
      else if |Frame(2, payload)| <= n.c.credit then n.(phase := Request(Greet(payload)))
      else n
    case DoRecv(ref) => if n.c.mode.Up? then n else Absorb(n, C.Recv(n.c, ref))
    case DropRecv(ref) => n.(c := C.DropWaiter(n.c, ref))
    case Complete =>
      if n.c.mode.Up? then n.(phase := Exited)
      else Absorb(n, C.PutPackets(n.c.(mode := C.Up))).(armed := true)
    case DoTick =>
      n.(c := n.c.(tickPending := true), phase := Flushing, earlyTick := n.c.mode.Handshake? || n.earlyTick)
    case DoClose => n.(phase := Request(Hangup))
  }

  function Next(n: Node, step: Step): (n': Node)
    requires Enabled(n, step)
  {
    match step
    case Daemon(d) => n.(s := D.Next(n.s, d))
    case Serve => Served(n, n.phase.op)
    case Resume => Resumed(n, n.phase.op, n.phase.reply.Accepted?)
    case Pump(answer) => Pumped(n, answer)
    case TakeEvent => EventTaken(n, n.s.events[n.seen])
    case Notify => n.(armed := false, notice := true)
    case TakeNotice => n.(notice := false, c := n.c.(distReady := true), phase := Flushing)
    case Die => n.(phase := Exited)
    case _ => Called(n, step)
  }

  // ---------- the invariant ----------

  /** The call in progress is one the controller could have made from its state. */
  predicate OpFits(n: Node) {
    n.phase.Calling? ==> OpOk(n.c, n.phase.op)
  }

  predicate OpOk(c: C.State, op: Op) {
    match op
    case Chunk(bytes, next, again) =>
      && c.mode.Up?
      && 0 < |bytes| <= C.MAX_PORT_CHUNK && next.credit + |bytes| == c.credit
      && (again <==> next.pendingOut == [])
      && next.mode == c.mode && next.buffer == c.buffer && next.waiter == c.waiter
      && next.recvCount == c.recvCount && next.distReady == c.distReady
    case Greet(payload) => c.mode.Handshake? && Fits(2, payload) && |Frame(2, payload)| <= c.credit
    case GrantBack(count) => 0 < count <= D.DATA_CHUNK
    case Hangup => true
  }

  /** Input: the bytes taken in are the frames handed out, in order, then the buffered residue. */
  predicate InputOk(replies: seq<Octets>, delivered: seq<Octets>, consumed: Octets, mode: C.Mode,
                    buffer: Octets, waiting: bool, count: nat) {
    && AllFit(2, replies) && AllFit(4, delivered)
    && consumed == Frames(2, replies) + Frames(4, delivered) + buffer
    && count == |replies| + |delivered|
    && (mode.Handshake? ==> delivered == [])
    && (mode.Handshake? && waiting ==> TakeOne(2, buffer) == More)
    && (mode.Up? ==> TakeOne(4, buffer) == More)
  }

  predicate InputSide(n: Node) {
    InputOk(n.replies, n.delivered, n.consumed, n.c.mode, n.c.buffer, n.c.waiter.Some?, n.c.recvCount)
  }

  /** Events are taken in order, and none is taken after a Closed. */
  predicate EventsOk(events: seq<D.Event>, seen: nat, consumed: Octets, exited: bool) {
    && seen <= |events|
    && consumed == D.DataOf(events[..seen])
    && (!exited ==> forall i :: 0 <= i < seen ==> !events[i].Closed?)
  }

  predicate EventSide(n: Node) {
    EventsOk(n.s.events, n.seen, n.consumed, n.phase.Exited?)
  }

  /** Output bytes put on the wire path but not accepted by the daemon. */
  function Unsent(n: Node): (s: Octets) {
    if n.phase.Calling? && n.phase.op.Chunk? then
      if n.phase.reply.Accepted? then n.phase.op.next.pendingOut
      else n.phase.op.bytes + n.phase.op.next.pendingOut
    else n.c.pendingOut
  }

  /** The frames of a connection's outbound direction: handshake first, then packets. */
  function Wire(greetings: seq<Octets>, packets: seq<Octets>): (s: Octets)
    requires AllFit(2, greetings) && AllFit(4, packets)
  {
    Frames(2, greetings) + Frames(4, packets)
  }

  /** Output: accepted bytes followed by what is left are whole frames, in order. */
  predicate OutputOk(greetings: seq<Octets>, packets: seq<Octets>, accepted: Octets, unsent: Octets, exited: bool) {
    && AllFit(2, greetings) && AllFit(4, packets)
    && accepted <= Wire(greetings, packets)
    && (!exited ==> accepted + unsent == Wire(greetings, packets))
  }

  predicate OutputSide(n: Node) {
    && OutputOk(n.greetings, n.packets, n.s.accepted, Unsent(n), n.phase.Exited?)
    && (n.c.mode.Handshake? ==> n.packets == [] && n.c.pendingOut == [])
  }

  /** Bytes an operation asks the daemon to send. */
  function Bytes(op: Op): (k: nat)
    requires op.Greet? ==> Fits(2, op.payload)
  {
    if op.Chunk? then |op.bytes| else if op.Greet? then |Frame(2, op.payload)| else 0
  }

  /** Bytes the daemon has accepted and the controller has not yet charged to its credit. */
  function Spent(n: Node): (k: nat)
    requires OpFits(n)
  {
    if n.phase.Calling? && n.phase.reply.Accepted? then Bytes(n.phase.op) else 0
  }

  predicate CreditSide(n: Node)
    requires OpFits(n) && n.seen <= |n.s.events|
  {
    !n.phase.Exited? ==>
      && n.c.credit <= D.CREDIT_WINDOW
      && n.c.credit + |n.s.accepted| == D.CREDIT_WINDOW + D.CreditOf(n.s.events[..n.seen]) + Spent(n)
  }

  /** Received bytes not granted back yet. */
  function Owed(n: Node): (k: nat) {
    if n.phase.Calling? && n.phase.op.GrantBack? && !n.phase.reply.Accepted? then n.phase.op.count else 0
  }

  predicate HangingUp(p: Phase) { p.Exited? || (p.Calling? && p.op.Hangup?) }

  predicate GrantSide(n: Node) {
    && n.s.granted <= |n.consumed|
    && (!HangingUp(n.phase) ==> n.s.granted + Owed(n) == |n.consumed|)
  }

  /** The pump is not running. */
  predicate Resting(p: Phase) {
    !(p.Flushing? || p.Exited? || (p.Calling? && p.op.Chunk?))
  }

  /** Wakeups: exactly one of the VM's obligation, its message and the ready flag stands while the
      connection is up; output left at rest means credit is outstanding. */
  predicate WakeSide(n: Node) {
    && (n.earlyTick ==> n.phase.Exited? || n.c.tickPending)
    && (n.phase.Calling? && n.phase.op.Chunk? ==> !n.earlyTick)
    && (n.c.mode.Handshake? ==> !n.armed && !n.notice && !n.c.distReady && (n.c.tickPending ==> n.earlyTick))
    && (n.c.mode.Up? && !n.phase.Exited? ==>
          (if n.armed then 1 else 0) + (if n.notice then 1 else 0) + (if n.c.distReady then 1 else 0) == 1)
    && (n.c.mode.Up? && Resting(n.phase) ==>
          && (n.c.pendingOut != [] ==> n.c.credit < D.CREDIT_WINDOW)
          && (n.c.pendingOut == [] ==> !n.c.distReady && (n.c.tickPending ==> n.earlyTick)))
  }

  /** The counters and flags. */
  predicate Books(n: Node) {
    OpFits(n) && n.seen <= |n.s.events| && CreditSide(n) && GrantSide(n) && WakeSide(n)
  }

  /** The byte streams. */
  predicate Flows(n: Node) {
    EventSide(n) && InputSide(n) && OutputSide(n)
  }

  predicate Inv(n: Node) {
    D.Inv(n.s) && Books(n) && Flows(n)
  }

  lemma StartInv(n: Node)
    requires Start(n)
    ensures Inv(n)
  {
    D.InstalledInv(n.s);
    assert Flows(n) by { StartedFlows(n); }
    assert Books(n) by { StartedBooks(n); }
  }

  lemma StartedBooks(n: Node)
    requires n.phase.Idle? && n.seen == 0 && n.c.mode.Handshake? && n.c.credit == D.CREDIT_WINDOW
    requires |n.s.accepted| == n.s.granted == |n.consumed| == 0
    requires !n.armed && !n.notice && !n.earlyTick && !n.c.distReady && !n.c.tickPending
    ensures Books(n)
  {
    assert |n.s.events[..0]| == 0;
  }

  lemma StartedFlows(n: Node)
    requires n.phase.Idle? && n.seen == 0 && n.c.mode.Handshake? && n.c.waiter.None? && n.c.recvCount == 0
    requires |n.s.accepted| == |n.consumed| == |n.c.buffer| == |n.c.pendingOut| == 0
    requires |n.greetings| == |n.packets| == |n.replies| == |n.delivered| == 0
    ensures Flows(n)
  {
    assert |n.s.events[..0]| == 0;
  }

  // ---------- counters and flags ----------

  lemma BooksDaemon(n: Node, d: D.Step)
    requires Books(n) && Enabled(n, Daemon(d))
    ensures Books(n.(s := D.Next(n.s, d)))
  {
    DaemonFrame(n.s, d, n.seen);
  }

  /** A runner's step only appends events and touches none of the histories the controller relies on. */
  lemma DaemonFrame(s: D.Stream, d: D.Step, seen: nat)
    requires D.Enabled(s, d) && !(d.ApiSend? || d.ApiCredit? || d.ApiClose?)
    requires seen <= |s.events|
    ensures var s' := D.Next(s, d);
            && s'.accepted == s.accepted && s'.granted == s.granted
            && s.events <= s'.events && s'.events[..seen] == s.events[..seen]
  {
  }

  lemma BooksServe(n: Node)
    requires Books(n) && Enabled(n, Serve)
    ensures Books(Served(n, n.phase.op))
  {
    hide Frame, Fits, D.CreditOf, D.CallClose, Wire, Frames, D.DataOf;
  }

  lemma BooksResume(n: Node)
    requires Books(n) && Enabled(n, Resume)
    ensures Books(Resumed(n, n.phase.op, n.phase.reply.Accepted?))
  {
    if n.phase.op.Chunk? {
      BooksChunkDone(n, n.phase.op.next, n.phase.op.again);
    }
  }

  lemma BooksChunkDone(n: Node, next: C.State, again: bool)
    requires Books(n) && Enabled(n, Resume) && n.phase.op.Chunk? && n.phase.op.next == next && n.phase.op.again == again
    ensures Books(Resumed(n, n.phase.op, n.phase.reply.Accepted?))
  {
  }

  lemma BooksPump(n: Node, answer: Option<C.Packet>)
    requires Books(n) && Enabled(n, Pump(answer))
    ensures Books(Pumped(n, answer))
  {
    hide Frame, C.FlushHead, D.CreditOf, WakeSide, TakesTick;
    HeadFrame(n.c);
    HeadCredit(n.c);
    if C.FlushHead(n.c).Hand? { C.HandConserves(n.c); }
    WakePump(n, answer);
  }

  /** Resting spends nothing. */
  lemma HeadCredit(c: C.State)
    ensures var m := C.FlushHead(c); m.Rest? ==> m.state.credit == c.credit && m.state.mode == c.mode
  {
    hide C.ChunkSize;
  }

  lemma WakePump(n: Node, answer: Option<C.Packet>)
    requires WakeSide(n) && n.phase.Flushing?
    ensures WakeSide(Pumped(n, answer))
  {
    hide Frame, C.ChunkSize;
  }

  lemma BooksEvent(n: Node)
    requires Books(n) && Enabled(n, TakeEvent)
    requires D.CreditOf(n.s.events) <= |n.s.accepted|
    requires n.s.events[n.seen].Data? ==> 0 < |n.s.events[n.seen].bytes| <= D.DATA_CHUNK
    ensures Books(EventTaken(n, n.s.events[n.seen]))
  {
    hide D.DataOf, D.CreditOf, Frames, ParseFrames;
    EventsSplit(n.s.events, n.seen);
    CreditOfPrefix(n.s.events, n.seen + 1);
  }

  lemma BooksCall(n: Node, step: Step)
    requires Books(n) && n.phase.Idle? && IsCall(step)
    requires n.c.mode.Handshake? ==> n.c.pendingOut == []
    ensures Books(Called(n, step))
  {
    hide Frames, ParseFrames, Frame;
  }

  lemma BooksSignal(n: Node, step: Step)
    requires Books(n) && Enabled(n, step) && (step.Notify? || step.TakeNotice? || step.Die?)
    ensures Books(Next(n, step))
  {
  }

  lemma EventsSplit(es: seq<D.Event>, k: nat)
    requires k < |es|
    ensures D.DataOf(es[..k + 1]) == D.DataOf(es[..k]) + (if es[k].Data? then es[k].bytes else [])
    ensures D.CreditOf(es[..k + 1]) == D.CreditOf(es[..k]) + (if es[k].Credit? then es[k].count else 0)
  {
    assert es[..k + 1] == es[..k] + [es[k]];
    D.TracePush(es[..k], es[k]);
  }

  lemma CreditOfPrefix(es: seq<D.Event>, k: nat)
    requires k <= |es|
    ensures D.CreditOf(es[..k]) + D.CreditOf(es[k..]) == D.CreditOf(es)
    ensures D.DataOf(es[..k]) + D.DataOf(es[k..]) == D.DataOf(es)
  {
    assert es == es[..k] + es[k..];
    D.TraceAppend(es[..k], es[k..]);
  }

  // ---------- byte streams ----------

  /** Nothing the byte streams consist of differs. */
  predicate SameStreams(n: Node, n': Node) {
    && n'.s.accepted == n.s.accepted
    && n'.replies == n.replies && n'.delivered == n.delivered && n'.consumed == n.consumed
    && n'.c.mode == n.c.mode && n'.c.buffer == n.c.buffer && n'.c.recvCount == n.c.recvCount
    && (n'.c.waiter == n.c.waiter || n'.c.waiter.None?)
    && n'.greetings == n.greetings && n'.packets == n.packets
    && (n.phase.Exited? ==> n'.phase.Exited?)
    && (!n'.phase.Exited? ==> Unsent(n') == Unsent(n))
    && (n'.c.pendingOut == n.c.pendingOut || n.c.mode.Up?)
  }

  lemma StreamsFrame(n: Node, n': Node)
    requires InputSide(n) && OutputSide(n) && SameStreams(n, n')
    ensures InputSide(n') && OutputSide(n')
  {
  }

  lemma FlowsFrame(n: Node, n': Node)
    requires Flows(n) && SameStreams(n, n') && n'.s.events == n.s.events && n'.seen == n.seen
    ensures Flows(n')
  {
    StreamsFrame(n, n');
  }

  lemma FlowsDaemon(n: Node, d: D.Step)
    requires Flows(n) && Enabled(n, Daemon(d)) && OpFits(n)
    ensures Flows(n.(s := D.Next(n.s, d)))
  {
    DaemonFrame(n.s, d, n.seen);
    var es, es' := n.s.events, D.Next(n.s, d).events;
    assert EventsOk(es', n.seen, n.consumed, n.phase.Exited?) by {
      assert forall i :: 0 <= i < n.seen ==> es'[i] == es[i];
    }
    StreamsFrame(n, n.(s := D.Next(n.s, d)));
  }

  lemma FlowsServe(n: Node)
    requires Flows(n) && Enabled(n, Serve) && OpFits(n)
    ensures Flows(Served(n, n.phase.op))
  {
    hide InputOk, EventsOk, Wire, Frames, Frame, AllFit;
    match n.phase.op
    case Chunk(bytes, next, _) =>
      OutputAccepted(n.greetings, n.packets, n.s.accepted, bytes, next.pendingOut);
    case Greet(payload) => GreetingAccepted(n.greetings, n.s.accepted, payload);
    case _ =>
      ServeSame(n);
      FlowsFrame(n, Served(n, n.phase.op));
  }

  lemma ServeSame(n: Node)
    requires Enabled(n, Serve) && OpFits(n) && (n.phase.op.GrantBack? || n.phase.op.Hangup?)
    ensures var n' := Served(n, n.phase.op); SameStreams(n, n') && n'.s.events == n.s.events && n'.seen == n.seen
  {
  }

  /** The daemon accepts a chunk of the output. */
  lemma OutputAccepted(greetings: seq<Octets>, packets: seq<Octets>, accepted: Octets, chunk: Octets, rest: Octets)
    requires OutputOk(greetings, packets, accepted, chunk + rest, false)
    ensures OutputOk(greetings, packets, accepted + chunk, rest, false)
  {
    Associative(accepted, chunk, rest);
  }

  lemma GreetingAccepted(greetings: seq<Octets>, accepted: Octets, payload: Octets)
    requires OutputOk(greetings, [], accepted, [], false) && Fits(2, payload)
    ensures OutputOk(greetings + [payload], [], accepted + Frame(2, payload), [], false)
  {
    FramesPush(2, greetings, payload);
    var f, g := Frames(2, greetings), Frame(2, payload);
    assert accepted == f by { Shuffle(accepted, [], []); Shuffle(f, [], []); }
    assert accepted + g + [] == f + g + [];
  }

  lemma ResumeSame(n: Node)
    requires Enabled(n, Resume) && OpFits(n)
    ensures var n' := Resumed(n, n.phase.op, n.phase.reply.Accepted?);
            SameStreams(n, n') && n'.s.events == n.s.events && n'.seen == n.seen
  {
    hide Frame, Fits;
  }

  /** A head of the pump moves no bytes, or puts a tick or the VM's packet on the drained output. */
  lemma PumpEffect(n: Node, answer: Option<C.Packet>)
    requires Enabled(n, Pump(answer)) && OpFits(n)
    ensures var n' := Pumped(n, answer);
            || (SameStreams(n, n') && n'.s.events == n.s.events && n'.seen == n.seen)
            || PutsPacket(n, n', [], C.Tick())
            || (answer.Some? && PutsPacket(n, n', answer.value, Frame(4, answer.value)))
  {
    hide Frame, Pumped, C.FlushHead, PutsPacket, SameStreams;
    if TakesTick(n.c) {
      PumpTakesTick(n, answer);
    } else if C.FlushHead(n.c).Ask? && answer.Some? {
      PumpOffers(n, answer.value);
    } else {
      PumpSame(n, answer);
    }
  }

  lemma PumpTakesTick(n: Node, answer: Option<C.Packet>)
    requires TakesTick(n.c) && n.phase.Flushing?
    ensures PutsPacket(n, Pumped(n, answer), [], C.Tick())
  {
    hide C.ChunkSize, Frame;
    if C.FlushHead(n.c).Hand? { C.HandConserves(n.c); }
  }

  lemma PumpOffers(n: Node, packet: C.Packet)
    requires C.FlushHead(n.c).Ask? && n.phase.Flushing?
    ensures PutsPacket(n, Pumped(n, Some(packet)), packet, Frame(4, packet))
  {
    hide C.ChunkSize, Frame, C.Tick;
  }

  lemma PumpSame(n: Node, answer: Option<C.Packet>)
    requires n.phase.Flushing? && !TakesTick(n.c) && (C.FlushHead(n.c).Ask? ==> answer.None?)
    ensures var n' := Pumped(n, answer); SameStreams(n, n') && n'.s.events == n.s.events && n'.seen == n.seen
  {
    hide C.FlushHead, Frame, C.Tick;
    assert n.packets + [] == n.packets;
    HeadFrame(n.c);
    if C.FlushHead(n.c).Hand? { C.HandConserves(n.c); }
  }

  /** What the pump's next move leaves alone. */
  lemma HeadFrame(c: C.State)
    ensures var m := C.FlushHead(c);
            && (m.Rest? && !TakesTick(c) ==> m.state == c)
            && (!m.Rest? ==> c.mode.Up?)
            && (m.Hand? ==> m.next.buffer == c.buffer && m.next.waiter == c.waiter && m.next.recvCount == c.recvCount)
  {
    hide C.ChunkSize, C.Tick;
  }

  predicate PutsPacket(n: Node, n': Node, packet: Octets, frame: Octets) {
    && n.phase.Flushing? && n.c.mode.Up? && n.c.pendingOut == []
    && n'.s == n.s && n'.seen == n.seen && n'.consumed == n.consumed && n'.replies == n.replies
    && n'.delivered == n.delivered && n'.greetings == n.greetings && n'.packets == n.packets + [packet]
    && n'.c.mode == n.c.mode && n'.c.buffer == n.c.buffer && n'.c.recvCount == n.c.recvCount
    && n'.c.waiter == n.c.waiter && !n'.phase.Exited? && Unsent(n') == frame
  }

  lemma FlowsPump(n: Node, answer: Option<C.Packet>)
    requires Flows(n) && Enabled(n, Pump(answer)) && OpFits(n)
    ensures Flows(Pumped(n, answer))
  {
    var n' := Pumped(n, answer);
    PumpEffect(n, answer);
    if PutsPacket(n, n', [], C.Tick()) {
      C.TickIsEmptyPacket();
      FlowsPacket(n, n', [], C.Tick());
    } else if answer.Some? && PutsPacket(n, n', answer.value, Frame(4, answer.value)) {
      FlowsPacket(n, n', answer.value, Frame(4, answer.value));
    } else {
      FlowsFrame(n, n');
    }
  }

  lemma FlowsPacket(n: Node, n': Node, packet: Octets, frame: Octets)
    requires Flows(n) && Fits(4, packet) && frame == Frame(4, packet)
    requires PutsPacket(n, n', packet, frame)
    ensures Flows(n')
  {
    PacketQueued(n.greetings, n.packets, n.s.accepted, packet);
  }

  /** Putting a packet on the drained output. */
  lemma PacketQueued(greetings: seq<Octets>, packets: seq<Octets>, accepted: Octets, packet: Octets)
    requires OutputOk(greetings, packets, accepted, [], false) && Fits(4, packet)
    ensures OutputOk(greetings, packets + [packet], accepted, Frame(4, packet), false)
  {
    FramesPush(4, packets, packet);
    var f, g, h := Frames(2, greetings), Frames(4, packets), Frame(4, packet);
    assert accepted == f + g by { Shuffle(accepted, [], []); }
    assert (f + g) + h == f + (g + h) by { Associative(f, g, h); }
  }

  lemma FlowsData(n: Node, bytes: Octets)
    requires Flows(n) && Enabled(n, TakeEvent) && n.s.events[n.seen] == D.Data(bytes)
    ensures Flows(EventTaken(n, D.Data(bytes)))
  {
    hide InputOk, OutputOk, D.DataOf, C.ConsumeInput;
    EventsSplit(n.s.events, n.seen);
    assert EventsOk(n.s.events, n.seen + 1, n.consumed + bytes, false);
    ConsumeFrame(n.c, bytes);
    ConsumeKeepsInput(n, bytes);
  }

  /** Input does not touch the output side of a controller. */
  lemma ConsumeFrame(c: C.State, data: Octets)
    ensures var c' := C.ConsumeInput(c, data).state;
            c' == c.(buffer := c'.buffer, waiter := c'.waiter, recvCount := c'.recvCount)
  {
    hide Feed, TakeOne;
  }

  lemma FlowsOtherEvent(n: Node)
    requires Flows(n) && Enabled(n, TakeEvent) && OpFits(n) && !n.s.events[n.seen].Data?
    ensures Flows(EventTaken(n, n.s.events[n.seen]))
  {
    hide InputOk, OutputOk, D.DataOf;
    EventsSplit(n.s.events, n.seen);
    assert EventsOk(n.s.events, n.seen + 1, n.consumed, n.s.events[n.seen].Closed?) by { Shuffle(n.consumed, [], []); }
    OtherEventSame(n);
    StreamsFrame(n, EventTaken(n, n.s.events[n.seen]));
  }

  lemma OtherEventSame(n: Node)
    requires Enabled(n, TakeEvent) && OpFits(n) && !n.s.events[n.seen].Data?
    ensures SameStreams(n, EventTaken(n, n.s.events[n.seen]))
  {
    hide Frame, C.ConsumeInput;
  }

  lemma ConsumeKeepsInput(n: Node, data: Octets)
    requires InputSide(n)
    ensures InputSide(Absorb(n, C.ConsumeInput(n.c, data)).(consumed := n.consumed + data))
  {
    hide Frames, TakeOne, Feed, ParseFrames;
    Associative(Frames(2, n.replies) + Frames(4, n.delivered), n.c.buffer, data);
    if n.c.mode.Up? {
      PutKeepsInput(n.replies, n.delivered, n.consumed + data, n.c.buffer + data, n.c.recvCount);
      assert n.replies + [] == n.replies;
    } else {
      ReplyKeepsInput(n, data);
    }
  }

  lemma ReplyKeepsInput(n: Node, data: Octets)
    requires InputSide(n) && n.c.mode.Handshake?
    requires n.consumed + data == Frames(2, n.replies) + Frames(4, n.delivered) + (n.c.buffer + data)
    ensures InputSide(Absorb(n, C.ConsumeInput(n.c, data)).(consumed := n.consumed + data))
  {
    hide Frames, TakeOne, Feed, ParseFrames;
    assert n.delivered + [] == n.delivered && n.replies + [] == n.replies;
    if n.c.waiter.Some? && TakeOne(2, n.c.buffer + data).One? {
      TakesReply(n.replies, n.c.buffer + data, n.consumed + data);
    }
  }

  /** Taking one reply from the buffer moves a whole frame into the replies. */
  lemma TakesReply(replies: seq<Octets>, buffer: Octets, consumed: Octets)
    requires AllFit(2, replies) && TakeOne(2, buffer).One?
    requires consumed == Frames(2, replies) + Frames(4, []) + buffer
    ensures AllFit(2, replies + [TakeOne(2, buffer).payload])
    ensures consumed == Frames(2, replies + [TakeOne(2, buffer).payload]) + Frames(4, []) + TakeOne(2, buffer).rest
  {
    var packet, rest := TakeOne(2, buffer).payload, TakeOne(2, buffer).rest;
    FramesPush(2, replies, packet);
    Regroup(Frames(2, replies), Frame(2, packet), rest);
  }

  lemma Regroup(f: Octets, g: Octets, h: Octets)
    ensures (f + []) + (g + h) == (f + g + []) + h
  {
  }

  /** Emptying the buffer of whole packets moves them to the VM. */
  lemma PutKeepsInput(replies: seq<Octets>, delivered: seq<Octets>, consumed: Octets, buffer: Octets, count: nat)
    requires AllFit(2, replies) && AllFit(4, delivered)
    requires consumed == Frames(2, replies) + Frames(4, delivered) + buffer
    requires count == |replies| + |delivered|
    ensures var fed := Feed(4, [], buffer);
            InputOk(replies, delivered + fed.packets, consumed, C.Up, fed.residue, true, count + |fed.packets|)
  {
    var fed := Feed(4, [], buffer);
    assert [] + buffer == buffer;
    ParseReencodes(4, buffer, []);
    FramesAppend(4, delivered, fed.packets);
    var f, g, h := Frames(2, replies), Frames(4, delivered), Frames(4, fed.packets);
    assert h + fed.residue == buffer by { Shuffle([], buffer, []); }
    Associative(f, g, h);
    Associative(f + g, h, fed.residue);
  }

  lemma CallSame(n: Node, step: Step)
    requires n.phase.Idle? && IsCall(step)
    requires n.c.mode.Handshake? ==> !step.DoRecv? && !step.Complete?
    ensures var n' := Called(n, step); SameStreams(n, n') && n'.s.events == n.s.events && n'.seen == n.seen
  {
    hide Frame, C.Recv, C.PutPackets;
  }

  lemma SignalSame(n: Node, step: Step)
    requires Enabled(n, step) && OpFits(n) && (step.Notify? || step.TakeNotice? || step.Die?)
    ensures var n' := Next(n, step); SameStreams(n, n') && n'.s.events == n.s.events && n'.seen == n.seen
  {
  }

  lemma FlowsCall(n: Node, step: Step)
    requires Flows(n) && n.phase.Idle? && IsCall(step)
    ensures Flows(Called(n, step))
  {
    if n.c.mode.Handshake? && step.DoRecv? {
      FlowsRecv(n, step.ref);
    } else if n.c.mode.Handshake? && step.Complete? {
      FlowsComplete(n);
    } else {
      CallSame(n, step);
      FlowsFrame(n, Called(n, step));
    }
  }

  lemma FlowsRecv(n: Node, ref: nat)
    requires Flows(n) && n.phase.Idle? && n.c.mode.Handshake?
    ensures Flows(Absorb(n, C.Recv(n.c, ref)))
  {
    assert n.delivered + [] == n.delivered && n.replies + [] == n.replies;
    if TakeOne(2, n.c.buffer).One? {
      TakesReply(n.replies, n.c.buffer, n.consumed);
    }
  }

  lemma FlowsComplete(n: Node)
    requires Flows(n) && n.phase.Idle? && n.c.mode.Handshake?
    ensures Flows(Absorb(n, C.PutPackets(n.c.(mode := C.Up))).(armed := true))
  {
    PutKeepsInput(n.replies, n.delivered, n.consumed, n.c.buffer, n.c.recvCount);
    assert n.replies + [] == n.replies;
  }

  lemma DataSize(s: D.Stream, k: nat)
    requires D.TraceShape(s) && k < |s.events| && s.events[k].Data?
    ensures 0 < |s.events[k].bytes| <= D.DATA_CHUNK
  {
    var es := s.events;
    if D.TraceClosed(es) {
      var body := es[..|es| - 1];
      assert body[k] == es[k];
    }
  }

  // ---------- every step ----------

  lemma StreamKeepsInv(n: Node, step: Step)
    requires D.Inv(n.s) && OpFits(n) && Enabled(n, step)
    ensures D.Inv(Next(n, step).s)
  {
    hide D.Inv, D.Next, D.Enabled, Served, Resumed, Pumped, EventTaken, Called;
    if step.Daemon? {
      D.StepKeepsInv(n.s, step.step);
    } else if step.Serve? {
      ServeKeepsInv(n, n.phase.op);
    } else {
      OthersKeepStream(n, step);
    }
  }

  lemma ServeKeepsInv(n: Node, op: Op)
    requires D.Inv(n.s) && (op.Greet? ==> Fits(2, op.payload))
    ensures D.Inv(Served(n, op).s)
  {
    hide D.Inv, D.CallSend, D.CallCredit, D.CallClose, Frame, Fits;
    match op
    case Chunk(bytes, _, _) => D.ApiSendKeepsInv(n.s, bytes);
    case Greet(payload) => D.ApiSendKeepsInv(n.s, Frame(2, payload));
    case GrantBack(count) => D.ApiCreditKeepsInv(n.s, count);
    case Hangup => D.ApiCloseKeepsInv(n.s);
  }

  /** Only the daemon and the calls it serves move the stream. */
  lemma OthersKeepStream(n: Node, step: Step)
    requires Enabled(n, step) && !step.Daemon? && !step.Serve?
    ensures Next(n, step).s == n.s
  {
    hide C.FlushHead, C.ConsumeInput, C.Recv, C.PutPackets, Frame, Fits, D.Next;
  }

  lemma StepKeepsBooks(n: Node, step: Step)
    requires Inv(n) && Enabled(n, step)
    ensures Books(Next(n, step))
  {
    hide Books, Served, Resumed, Pumped, EventTaken, Called;
    match step
    case Daemon(d) => BooksDaemon(n, d);
    case Serve => BooksServe(n);
    case Resume => BooksResume(n);
    case Pump(answer) => BooksPump(n, answer);
    case TakeEvent =>
      if n.s.events[n.seen].Data? { DataSize(n.s, n.seen); }
      BooksEvent(n);
    case Notify => BooksSignal(n, step);
    case TakeNotice => BooksSignal(n, step);
    case Die => BooksSignal(n, step);
    case _ => BooksCall(n, step);
  }

  lemma StepKeepsFlows(n: Node, step: Step)
    requires OpFits(n) && Flows(n) && Enabled(n, step)
    ensures Flows(Next(n, step))
  {
    hide Flows, Served, Resumed, Pumped, EventTaken, Called, SameStreams;
    match step
    case Daemon(d) => FlowsDaemon(n, d);
    case Serve => FlowsServe(n);
    case Resume =>
      ResumeSame(n);
      FlowsFrame(n, Resumed(n, n.phase.op, n.phase.reply.Accepted?));
    case Pump(answer) => FlowsPump(n, answer);
    case TakeEvent =>
      if n.s.events[n.seen].Data? {
        FlowsData(n, n.s.events[n.seen].bytes);
      } else {
        FlowsOtherEvent(n);
      }
    case Notify =>
      SignalSame(n, step);
      FlowsFrame(n, Next(n, step));
    case TakeNotice =>
      SignalSame(n, step);
      FlowsFrame(n, Next(n, step));
    case Die =>
      SignalSame(n, step);
      FlowsFrame(n, Next(n, step));
    case _ => FlowsCall(n, step);
  }

  lemma StepKeepsInv(n: Node, step: Step)
    requires Inv(n) && Enabled(n, step)
    ensures Inv(Next(n, step))
  {
    StreamKeepsInv(n, step);
    StepKeepsBooks(n, step);
    StepKeepsFlows(n, step);
  }

  // ---------- every run ----------

  predicate IsRun(n: Node, steps: seq<Step>)
    decreases |steps|
  {
    steps == [] || (Enabled(n, steps[0]) && IsRun(Next(n, steps[0]), steps[1..]))
  }

  function After(n: Node, steps: seq<Step>): (n': Node)
    requires IsRun(n, steps)
    decreases |steps|
  {
    if steps == [] then n else After(Next(n, steps[0]), steps[1..])
  }

  lemma {:induction false} RunKeepsInv(n: Node, steps: seq<Step>)
    requires Inv(n) && IsRun(n, steps)
    ensures Inv(After(n, steps))
    decreases |steps|
  {
    if steps != [] {
      StepKeepsInv(n, steps[0]);
      RunKeepsInv(Next(n, steps[0]), steps[1..]);
    }
  }

  ghost predicate Reachable(n: Node) {
    exists n0: Node, steps: seq<Step> :: Start(n0) && IsRun(n0, steps) && After(n0, steps) == n
  }

  lemma {:induction false} RunExtends(n: Node, steps: seq<Step>, step: Step)
    requires IsRun(n, steps) && Enabled(After(n, steps), step)
    ensures IsRun(n, steps + [step]) && After(n, steps + [step]) == Next(After(n, steps), step)
    decreases |steps|
  {
    hide Enabled, Next;
    if steps == [] {
      assert steps + [step] == [step] && [step][1..] == [];
    } else {
      RunExtends(Next(n, steps[0]), steps[1..], step);
      assert (steps + [step])[1..] == steps[1..] + [step];
    }
  }

  /** What is reached stays reached by one more step. */
  lemma StepReaches(n: Node, step: Step)
    requires Reachable(n) && Enabled(n, step)
    ensures Reachable(Next(n, step))
  {
    hide Enabled, Next, IsRun, After, Start;
    var n0, steps :| Start(n0) && IsRun(n0, steps) && After(n0, steps) == n;
    RunExtends(n0, steps, step);
  }

  lemma {:induction false} RunReaches(n: Node, steps: seq<Step>)
    requires Reachable(n) && IsRun(n, steps)
    ensures Reachable(After(n, steps))
    decreases |steps|
  {
    hide Reachable, Enabled, Next;
    if steps != [] {
      StepReaches(n, steps[0]);
      RunReaches(Next(n, steps[0]), steps[1..]);
    }
  }

  lemma ReachableInv(n: Node)
    requires Reachable(n)
    ensures Inv(n)
  {
    var n0, steps :| Start(n0) && IsRun(n0, steps) && After(n0, steps) == n;
    StartInv(n0);
    RunKeepsInv(n0, steps);
  }

  /** A request in progress can always be served and its answer always taken. */
  lemma CallsComplete(n: Node)
    requires Reachable(n) && n.phase.Calling?
    ensures Enabled(n, Serve) <==> n.phase.reply.Awaited?
    ensures Enabled(n, Resume) <==> !n.phase.reply.Awaited?
  {
    ReachableInv(n);
  }

  /** The bytes of a send request. */
  function Requested(op: Op): (s: Octets)
    requires op.Chunk? || (op.Greet? && Fits(2, op.payload))
  {
    if op.Chunk? then op.bytes else Frame(2, op.payload)
  }

  /** Whenever the controller asks for a send on a stream that still exists, the daemon has the
      credit: the only refusal left is a full command queue. */
  lemma SendNeverExhausted(n: Node)
    requires Reachable(n) && n.phase.Calling? && n.phase.reply.Awaited? && n.s.entry.Some?
    requires n.phase.op.Chunk? || n.phase.op.Greet?
    ensures n.phase.op.Greet? ==> Fits(2, n.phase.op.payload)
    ensures n.c.credit <= n.s.entry.value.sendCredit
    ensures D.CallSend(n.s.entry, Requested(n.phase.op)).1 ==
            if |n.s.entry.value.commands| < D.COMMAND_QUEUE then D.Accepted else D.Refused(D.QueueFull)
  {
    hide Reachable, Flows, WakeSide, GrantSide, D.TraceShape, D.ReceiveSide, Frame;
    ReachableInv(n);
    CreditOfPrefix(n.s.events, n.seen);
  }

  /** A controller that grants back each Data event once is never told the grant is invalid. */
  lemma GrantNeverInvalid(n: Node)
    requires Reachable(n) && n.phase.Calling? && n.phase.reply.Awaited? && n.s.entry.Some?
    requires n.phase.op.GrantBack?
    ensures D.CallCredit(n.s.entry, n.phase.op.count).1 ==
            if |n.s.entry.value.commands| < D.COMMAND_QUEUE then D.Accepted else D.Refused(D.QueueFull)
  {
    hide Reachable, Flows, WakeSide, CreditSide, D.TraceShape, D.SendSide, Frame;
    ReachableInv(n);
    CreditOfPrefix(n.s.events, n.seen);
    ReadCovers(n);
  }

  /** Everything taken in, and what the runner still holds uncharged, has been read. */
  lemma ReadCovers(n: Node)
    requires Inv(n)
    ensures |n.consumed| + D.Uncharged(n.s.phase) <= |n.s.read|
  {
    CreditOfPrefix(n.s.events, n.seen);
    var seen, later := D.DataOf(n.s.events[..n.seen]), D.DataOf(n.s.events[n.seen..]);
    assert |seen + later| == |seen| + |later|;
  }

  /** End-to-end send credit: the controller's credit, credit events it has not taken, credit the
      runner is about to announce, and bytes queued or in the runner's hands add up to one window. */
  lemma SendCreditConserved(n: Node)
    requires Reachable(n) && !n.phase.Exited? && D.Live(n.s.phase)
    ensures n.s.entry.Some? && n.seen <= |n.s.events| && OpFits(n)
    ensures n.c.credit + D.CreditOf(n.s.events[n.seen..]) + D.Unannounced(n.s.phase) + D.Unreturned(n.s.phase)
              + |D.QueuedBytes(n.s.entry.value.commands)| == D.CREDIT_WINDOW + Spent(n)
  {
    ReachableInv(n);
    CreditOfPrefix(n.s.events, n.seen);
    WindowArithmetic(n.s);
  }

  lemma WindowArithmetic(s: D.Stream)
    requires D.Inv(s) && D.Live(s.phase)
    ensures |s.accepted| == |s.written| + |D.Unwritten(s.phase)| + |D.QueuedBytes(s.entry.value.commands)|
    ensures D.Unreturned(s.phase) == |D.Unwritten(s.phase)| + D.Unrestored(s.phase)
  {
    var a, b, c := s.written, D.Unwritten(s.phase), D.QueuedBytes(s.entry.value.commands);
    assert |a + b + c| == |a| + |b| + |c|;
  }

  /** No wakeup is lost. At rest with the connection up: output left behind means bytes are with
      the daemon or a credit event is waiting, as long as the stream lives; when it no longer
      lives, its Closed event has not been taken. With no output left, nothing is ready to be
      pulled, the VM owes or has sent a notification, and a tick waits exactly if it was taken
      during the handshake and nothing has been pumped since. */
  lemma NoLostWakeup(n: Node)
    requires Reachable(n) && n.phase.Idle? && n.c.mode.Up?
    ensures D.Live(n.s.phase) ==> n.s.entry.Some?
    ensures n.seen <= |n.s.events|
    ensures n.c.pendingOut != [] && D.Live(n.s.phase) ==>
              0 < D.CreditOf(n.s.events[n.seen..]) + D.Unannounced(n.s.phase) + D.Unreturned(n.s.phase)
                  + |D.QueuedBytes(n.s.entry.value.commands)|
    ensures forall i :: 0 <= i < n.seen ==> !n.s.events[i].Closed?
    ensures n.c.pendingOut == [] ==> !n.c.distReady && (n.armed || n.notice)
    ensures n.c.pendingOut == [] ==> (n.c.tickPending <==> n.earlyTick)
  {
    ReachableInv(n);
    if D.Live(n.s.phase) { SendCreditConserved(n); }
  }

  /** The one way a tick is left waiting with nothing due: it was taken during the handshake.
      Completing the handshake does not pump, so it then waits for the next tick or event. */
  lemma HandshakeTickWaits(n: Node)
    requires Reachable(n) && n.phase.Idle? && n.c.mode.Handshake?
    ensures var n' := Next(n, Complete);
            && n'.phase.Idle? && n'.c.mode.Up? && n'.c.pendingOut == []
            && (n'.c.tickPending <==> n.c.tickPending)
            && (n'.c.tickPending <==> n.earlyTick)
  {
    ReachableInv(n);
  }

  /** Such a run exists: tick, pump, complete. */
  lemma HandshakeTickExample(n: Node)
    requires Start(n)
    ensures IsRun(n, [DoTick, Pump(None), Complete])
    ensures var n' := After(n, [DoTick, Pump(None), Complete]);
            n'.phase.Idle? && n'.c.mode.Up? && n'.c.tickPending && n'.c.pendingOut == [] && n'.s == n.s
  {
    var n1 := Next(n, DoTick);
    var n2 := Next(n1, Pump(None));
    assert n2.phase.Idle? && n2.c == n1.c;
    var n3 := Next(n2, Complete);
    assert IsRun(n3, []) && After(n3, []) == n3;
    assert [DoTick, Pump(None), Complete][1..] == [Pump(None), Complete];
    assert [Pump(None), Complete][1..] == [Complete];
    assert [Complete][1..] == [];
    assert IsRun(n2, [Complete]) && After(n2, [Complete]) == n3;
    assert IsRun(n1, [Pump(None), Complete]) && After(n1, [Pump(None), Complete]) == n3;
  }

  /** Output integrity: in every state the bytes the daemon accepted are a prefix of whole frames,
      handshake first, and with what is still unsent they are exactly those frames. */
  lemma OutputIntact(n: Node)
    requires Reachable(n)
    ensures AllFit(2, n.greetings) && AllFit(4, n.packets)
    ensures n.s.accepted <= Wire(n.greetings, n.packets)
    ensures !n.phase.Exited? ==> n.s.accepted + Unsent(n) == Wire(n.greetings, n.packets)
  {
    ReachableInv(n);
  }

  /** Input integrity: what was forwarded by the daemon and taken is the frames handed out in order
      followed by the residue; no whole frame is withheld from a waiting reader or the VM. */
  lemma InputIntact(n: Node)
    requires Reachable(n)
    ensures n.seen <= |n.s.events| && AllFit(2, n.replies) && AllFit(4, n.delivered)
    ensures D.DataOf(n.s.events[..n.seen]) == Frames(2, n.replies) + Frames(4, n.delivered) + n.c.buffer
    ensures n.c.mode.Handshake? ==> n.delivered == [] && (n.c.waiter.Some? ==> TakeOne(2, n.c.buffer).More?)
    ensures n.c.mode.Up? ==> TakeOne(4, n.c.buffer).More?
    ensures n.c.recvCount == |n.replies| + |n.delivered|
  {
    ReachableInv(n);
  }
}
