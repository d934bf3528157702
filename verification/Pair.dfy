/** Two controllers on two nodes joined by an ordered byte channel in each direction: the
    distribution carrier end to end. */
module Pair {
  import opened Octets
  import opened Framing
  import N = Node
  import D = Carrier

  datatype Pair = Pair(left: N.Node, right: N.Node)

  datatype Step = Left(step: N.Step) | Right(step: N.Step)

  /** What may be on the wire: all that was written and what a write in progress may have put out. */
  function OnWire(s: D.Stream): (w: Octets) { if s.phase.Writing? then s.written + s.phase.bytes else s.written }

  /** A read delivers the next bytes the other side has put on the wire, be their write complete or
      not; a write that fails had put out at least what was read of it. Everything else is local. */
  predicate Local(n: N.Node, other: N.Node, step: N.Step) {
    && N.Enabled(n, step)
    && (step.Daemon? && step.step.Read? ==> n.s.read + step.step.bytes <= OnWire(other.s))
    && (step.Daemon? && step.step.WriteFails? ==> other.s.read <= n.s.written + n.s.phase.bytes[..step.step.sent])
  }

  predicate Enabled(p: Pair, step: Step) {
    match step
    case Left(s) => Local(p.left, p.right, s)
    case Right(s) => Local(p.right, p.left, s)
  }

  function Next(p: Pair, step: Step): (p': Pair)
    requires Enabled(p, step)
  {
    match step
    case Left(s) => p.(left := N.Next(p.left, s))
    case Right(s) => p.(right := N.Next(p.right, s))
  }

  predicate Inv(p: Pair) {
    && N.Inv(p.left) && N.Inv(p.right)
    && p.left.s.read <= OnWire(p.right.s) && p.right.s.read <= OnWire(p.left.s)
  }

  /** What a node has read changes only by reading; what it has put on the wire only grows, except
      that a failed write settles how much of it went out. */
  lemma StreamGrows(n: N.Node, step: N.Step)
    requires N.Enabled(n, step)
    ensures var n' := N.Next(n, step);
            && (if step.Daemon? && step.step.WriteFails?
                then OnWire(n'.s) == n.s.written + n.s.phase.bytes[..step.step.sent]
                else OnWire(n.s) <= OnWire(n'.s))
            && n'.s.read == (if step.Daemon? && step.step.Read? then n.s.read + step.step.bytes else n.s.read)
  {
    hide N.Served, N.Pumped, N.EventTaken, N.Called, N.Resumed, D.Next, D.Enabled;
    if step.Daemon? {
      DaemonGrows(n.s, step.step);
    } else if step.Serve? {
      ServeGrows(n, n.phase.op);
    } else {
      N.OthersKeepStream(n, step);
    }
  }

  lemma ServeGrows(n: N.Node, op: N.Op)
    requires op.Greet? ==> Fits(2, op.payload)
    ensures var n' := N.Served(n, op);
            n'.s.phase == n.s.phase && n'.s.written == n.s.written && n'.s.read == n.s.read
  {
    hide Frame, Fits, D.CallSend, D.CallCredit, D.CallClose;
  }

  lemma DaemonGrows(s: D.Stream, d: D.Step)
    requires D.Enabled(s, d)
    ensures var s' := D.Next(s, d);
            && (if d.WriteFails? then OnWire(s') == s.written + s.phase.bytes[..d.sent] else OnWire(s) <= OnWire(s'))
            && s'.read == (if d.Read? then s.read + d.bytes else s.read)
  {
  }

  lemma StepKeepsInv(p: Pair, step: Step)
    requires Inv(p) && Enabled(p, step)
    ensures Inv(Next(p, step))
  {
    match step
    case Left(s) =>
      N.StepKeepsInv(p.left, s);
      StreamGrows(p.left, s);
    case Right(s) =>
      N.StepKeepsInv(p.right, s);
      StreamGrows(p.right, s);
  }

  predicate IsRun(p: Pair, steps: seq<Step>)
    decreases |steps|
  {
    steps == [] || (Enabled(p, steps[0]) && IsRun(Next(p, steps[0]), steps[1..]))
  }

  function After(p: Pair, steps: seq<Step>): (p': Pair)
    requires IsRun(p, steps)
    decreases |steps|
  {
    if steps == [] then p else After(Next(p, steps[0]), steps[1..])
  }

  lemma {:induction false} RunKeepsInv(p: Pair, steps: seq<Step>)
    requires Inv(p) && IsRun(p, steps)
    ensures Inv(After(p, steps))
    decreases |steps|
  {
    if steps != [] {
      StepKeepsInv(p, steps[0]);
      RunKeepsInv(Next(p, steps[0]), steps[1..]);
    }
  }

  predicate Start(p: Pair) { N.Start(p.left) && N.Start(p.right) }

  ghost predicate Reachable(p: Pair) {
    exists p0: Pair, steps: seq<Step> :: Start(p0) && IsRun(p0, steps) && After(p0, steps) == p
  }

  lemma ReachableInv(p: Pair)
    requires Reachable(p)
    ensures Inv(p)
  {
    var p0, steps :| Start(p0) && IsRun(p0, steps) && After(p0, steps) == p;
    N.StartInv(p0.left);
    N.StartInv(p0.right);
    RunKeepsInv(p0, steps);
  }

  /** Only accepted bytes are ever on the wire. */
  lemma WireAccepted(s: D.Stream)
    requires D.Inv(s)
    ensures OnWire(s) <= s.accepted
  {
    hide D.Accounts, D.ReceiveSide, D.TraceShape, D.QueuedBytes;
  }

  /** Along the whole path, what the receiver has taken in is a prefix of the sender's frames. */
  lemma ConsumedIsPrefix(p: Pair)
    requires Inv(p)
    ensures AllFit(2, p.left.greetings) && AllFit(4, p.left.packets)
    ensures p.right.consumed <= N.Wire(p.left.greetings, p.left.packets)
  {
    var r := p.right;
    N.CreditOfPrefix(r.s.events, r.seen);
    assert r.consumed <= D.DataOf(r.s.events);
    assert D.DataOf(r.s.events) <= r.s.read;
    WireAccepted(p.left.s);
    assert r.s.read <= OnWire(p.left.s) <= p.left.s.accepted;
  }

  /** End-to-end delivery, in every interleaving of both controllers, both daemons and the network,
      for any credit splits and any fragmentation. While the receiver has read no more handshake
      messages than the sender sent, they are the sender's, in order; once it has completed the
      handshake after exactly those, the packets its VM got are a prefix of the packets (and
      ticks) the sending VM put out. */
  lemma EndToEnd(p: Pair)
    requires Reachable(p)
    ensures |p.right.replies| <= |p.left.greetings| ==> p.right.replies <= p.left.greetings
    ensures |p.right.replies| == |p.left.greetings| ==>
              p.right.replies == p.left.greetings && p.right.delivered <= p.left.packets
  {
    ReachableInv(p);
    ConsumedIsPrefix(p);
    var r, l := p.right, p.left;
    if |r.replies| <= |l.greetings| {
      Associative(Frames(2, r.replies), Frames(4, r.delivered), r.c.buffer);
      FramesPrefix(2, r.replies, Frames(4, r.delivered) + r.c.buffer, l.greetings, Frames(4, l.packets));
      if |r.replies| == |l.greetings| {
        assert l.greetings[|r.replies|..] == [];
        Shuffle([], Frames(4, l.packets), []);
        FramesPrefixOf(4, r.delivered, r.c.buffer, l.packets);
      }
    }
  }

  /** Everything the sender put out has left it, crossed the network and been taken in. */
  predicate Drained(p: Pair) {
    && !p.left.phase.Exited? && N.Unsent(p.left) == []
    && p.left.s.written == p.left.s.accepted
    && p.right.s.read == p.left.s.written
    && p.right.s.phase.Selecting? && p.right.seen == |p.right.s.events|
  }

  /** Nothing is missing in the end: after a drain, and a handshake completed at the boundary, the
      receiving VM has exactly the packets the sending VM put out and no byte is left over. */
  lemma DrainedDelivery(p: Pair)
    requires Reachable(p) && Drained(p)
    requires |p.right.replies| == |p.left.greetings| && p.right.c.mode.Up?
    ensures p.right.replies == p.left.greetings && p.right.delivered == p.left.packets && p.right.c.buffer == []
  {
    ReachableInv(p);
    EndToEnd(p);
    DrainedConsumed(p);
    WholeWire(p.left.greetings, p.right.delivered, p.right.c.buffer, p.left.packets);
  }

  lemma DrainedConsumed(p: Pair)
    requires Inv(p) && Drained(p)
    ensures p.right.consumed == N.Wire(p.left.greetings, p.left.packets)
  {
    var r := p.right;
    assert r.s.events[..r.seen] == r.s.events;
    assert D.DataOf(r.s.events) == r.s.read by { Shuffle(D.DataOf(r.s.events), [], []); }
    Shuffle(p.left.s.accepted, [], []);
  }

  lemma WholeWire(greetings: seq<Octets>, delivered: seq<Octets>, buffer: Octets, packets: seq<Octets>)
    requires AllFit(2, greetings) && AllFit(4, delivered) && AllFit(4, packets) && TakeOne(4, buffer) == More
    requires Frames(2, greetings) + Frames(4, delivered) + buffer == Frames(2, greetings) + Frames(4, packets)
    ensures delivered == packets && buffer == []
  {
    var f, g, h := Frames(2, greetings), Frames(4, delivered), Frames(4, packets);
    Associative(f, g, buffer);
    CancelPrefix(f, g + buffer, h);
    ParseExact(4, delivered, buffer, []);
    ParseExact(4, packets, [], []);
    assert h + [] == h;
    assert [] + delivered == delivered && [] + packets == packets;
  }

  lemma CancelPrefix(a: Octets, x: Octets, y: Octets)
    requires a + x == a + y
    ensures x == y
  {
    assert x == (a + x)[|a|..] && y == (a + y)[|a|..];
  }

  // ---------- the other direction ----------

  function Mirror(p: Pair): (m: Pair) { Pair(p.right, p.left) }

  function MirrorStep(step: Step): (m: Step) {
    if step.Left? then Right(step.step) else Left(step.step)
  }

  function MirrorRun(steps: seq<Step>): (m: seq<Step>) {
    if steps == [] then [] else [MirrorStep(steps[0])] + MirrorRun(steps[1..])
  }

  /** The system is symmetric, so every statement about one direction holds for the other. */
  lemma {:induction false} MirrorRuns(p: Pair, steps: seq<Step>)
    requires IsRun(p, steps)
    ensures IsRun(Mirror(p), MirrorRun(steps)) && After(Mirror(p), MirrorRun(steps)) == Mirror(After(p, steps))
    decreases |steps|
  {
    if steps != [] {
      assert Next(Mirror(p), MirrorStep(steps[0])) == Mirror(Next(p, steps[0]));
      MirrorRuns(Next(p, steps[0]), steps[1..]);
      assert MirrorRun(steps)[1..] == MirrorRun(steps[1..]);
    }
  }

  lemma MirrorReachable(p: Pair)
    requires Reachable(p)
    ensures Reachable(Mirror(p))
  {
    var p0, steps :| Start(p0) && IsRun(p0, steps) && After(p0, steps) == p;
    MirrorRuns(p0, steps);
    assert Start(Mirror(p0));
  }
}
