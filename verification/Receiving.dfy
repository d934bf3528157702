/** Blocked readers of the handshake (`recv` of `src/iroh_dist_controller.erl`): over every run, the controller waits
    for exactly the reader that asked last and was neither answered nor called off, and that reader gets the first
    whole frame that comes in. */
module Receiving {
  import opened Octets
  import opened Framing
  import C = Controller
  import D = Carrier
  import opened Node

  // ---------- who is waiting ----------

  /** The reader left without an answer by a step, if `before` was without one before it. */
  function AskedBy(n: Node, step: Step, before: Option<nat>): (r: Option<nat>)
    requires Enabled(n, step)
  {
    if |Next(n, step).replies| > |n.replies| then None
    else if step.DoRecv? && n.c.mode.Handshake? then Some(step.ref)
    else if step.DropRecv? && before == Some(step.ref) then None
    else before
  }

  /** The last `recv` of a run that has been neither answered nor called off. */
  function Asked(n: Node, steps: seq<Step>, before: Option<nat>): (r: Option<nat>)
    requires IsRun(n, steps)
    decreases |steps|
  {
    if steps == [] then before else Asked(Next(n, steps[0]), steps[1..], AskedBy(n, steps[0], before))
  }

  // ---------- steps ----------

  predicate SameInput(n: Node, n': Node) {
    && n'.c.mode == n.c.mode && n'.c.waiter == n.c.waiter && n'.c.buffer == n.c.buffer
    && n'.replies == n.replies && n'.consumed == n.consumed
  }

  /** Only events, readers and the end of the handshake concern the input side. */
  predicate Reads(step: Step) { step.TakeEvent? || step.DoRecv? || step.DropRecv? || step.Complete? }

  lemma PumpSameInput(n: Node, answer: Option<C.Packet>)
    ensures SameInput(n, Pumped(n, answer))
  {
    hide C.ChunkSize, C.Tick, Frame;
  }

  lemma ServeSameInput(n: Node, op: Op)
    requires op.Greet? ==> Fits(2, op.payload)
    ensures SameInput(n, Served(n, op))
  {
    hide D.Next, D.CallSend, D.CallCredit, D.CallClose, Frame, Fits;
  }

  lemma CallSameInput(n: Node, step: Step)
    requires IsCall(step) && !Reads(step)
    ensures SameInput(n, Called(n, step))
  {
    hide Frame, Fits;
  }

  lemma OthersSameInput(n: Node, step: Step)
    requires OpFits(n) && Enabled(n, step) && !Reads(step)
    ensures SameInput(n, Next(n, step))
  {
    hide D.Next, Served, Pumped, Called, Frame, Fits;
    match step
    case Serve => ServeSameInput(n, n.phase.op);
    case Pump(answer) => PumpSameInput(n, answer);
    case Daemon(_) =>
    case Resume =>
    case Notify =>
    case TakeNotice =>
    case Die =>
    case _ => CallSameInput(n, step);
  }

  /** Input in handshake mode: a waiting reader takes the first whole frame, otherwise bytes are only kept. */
  lemma DataTaken(n: Node, bytes: Octets)
    requires n.c.mode.Handshake?
    ensures var n' := EventTaken(n, D.Data(bytes));
            var t := TakeOne(2, n.c.buffer + bytes);
            && n'.c.mode.Handshake? && n'.consumed == n.consumed + bytes
            && (if n.c.waiter.Some? && t.One?
                then n'.replies == n.replies + [t.payload] && n'.c.waiter.None? && n'.c.buffer == t.rest
                else n'.replies == n.replies && n'.c.waiter == n.c.waiter && n'.c.buffer == n.c.buffer + bytes)
  {
    hide TakeOne;
    assert n.replies + [] == n.replies;
  }

  lemma EventSameInput(n: Node, e: D.Event)
    requires !e.Data?
    ensures SameInput(n, EventTaken(n, e))
  {
  }

  lemma RecvTakes(n: Node, ref: nat)
    requires n.c.mode.Handshake?
    ensures var n', t := Called(n, DoRecv(ref)), TakeOne(2, n.c.buffer);
            && n'.c.mode.Handshake? && n'.consumed == n.consumed
            && (if t.One? then n'.replies == n.replies + [t.payload] && n'.c.waiter == n.c.waiter
                else n'.replies == n.replies && n'.c.waiter == Some(ref))
  {
    hide TakeOne;
    assert n.replies + [] == n.replies;
  }

  /** The controller waits for the reader that is without an answer. */
  predicate Tracks(n: Node, asked: Option<nat>) { n.c.mode.Handshake? ==> n.c.waiter == asked }

  lemma StepTracks(n: Node, step: Step, before: Option<nat>)
    requires Inv(n) && Enabled(n, step) && Tracks(n, before)
    ensures Tracks(Next(n, step), AskedBy(n, step, before))
  {
    hide D.Inv, Books, EventTaken, Called, Served, Pumped, Resumed, Frames, TakeOne;
    if !Reads(step) {
      assert OpFits(n) by { BooksFit(n); }
      OthersSameInput(n, step);
    } else if n.c.mode.Up? {
      UpStays(n, step);
    } else if step.TakeEvent? {
      var e := n.s.events[n.seen];
      if e.Data? {
        DataTaken(n, e.bytes);
      } else {
        EventSameInput(n, e);
      }
    } else if step.DoRecv? {
      RecvTakes(n, step.ref);
    } else if step.DropRecv? {
      DropTakes(n, step.ref);
    } else {
      CompleteIsUp(n);
    }
  }

  lemma BooksFit(n: Node)
    requires Books(n)
    ensures OpFits(n)
  {
  }

  lemma DropTakes(n: Node, ref: nat)
    ensures var n' := Called(n, DropRecv(ref));
            && n'.replies == n.replies && n'.c.mode == n.c.mode
            && n'.c.waiter == (if n.c.waiter == Some(ref) then None else n.c.waiter)
  {
  }

  lemma CompleteIsUp(n: Node)
    ensures Called(n, Complete).c.mode.Up?
  {
    hide Feed;
  }

  lemma UpStays(n: Node, step: Step)
    requires n.c.mode.Up? && Enabled(n, step) && Reads(step)
    ensures Next(n, step).c.mode.Up?
  {
    hide EventTaken, Called;
    if step.TakeEvent? {
      UpTakes(n, n.s.events[n.seen]);
    } else {
      UpCalled(n, step);
    }
  }

  lemma UpTakes(n: Node, e: D.Event)
    requires n.c.mode.Up?
    ensures EventTaken(n, e).c.mode.Up?
  {
    hide Feed;
  }

  lemma UpCalled(n: Node, step: Step)
    requires n.c.mode.Up? && IsCall(step) && Reads(step)
    ensures Called(n, step).c.mode.Up?
  {
    hide Feed;
  }

  lemma {:induction false} RunTracks(n: Node, steps: seq<Step>, before: Option<nat>)
    requires Inv(n) && IsRun(n, steps) && Tracks(n, before)
    ensures Tracks(After(n, steps), Asked(n, steps, before))
    decreases |steps|
  {
    hide Inv, Tracks, AskedBy, Enabled, Next;
    if steps != [] {
      StepTracks(n, steps[0], before);
      StepKeepsInv(n, steps[0]);
      RunTracks(Next(n, steps[0]), steps[1..], AskedBy(n, steps[0], before));
    }
  }

  /** In every run, a controller in the handshake waits for exactly the reader that is without an answer; and then
      every whole frame that has come in has been handed out. */
  lemma WaitsForReader(n0: Node, steps: seq<Step>)
    requires Start(n0) && IsRun(n0, steps) && After(n0, steps).c.mode.Handshake?
    ensures var n := After(n0, steps);
            && n.c.waiter == Asked(n0, steps, None)
            && (n.c.waiter.Some? ==> Feed(2, [], n.consumed) == Fed(n.replies, n.c.buffer))
  {
    hide IsRun, After, Asked, D.Inv, Books, Frames, TakeOne;
    StartInv(n0);
    RunTracks(n0, steps, None);
    RunKeepsInv(n0, steps);
    if After(n0, steps).c.waiter.Some? {
      AllHandedOut(After(n0, steps));
    }
  }

  lemma AllHandedOut(n: Node)
    requires InputSide(n) && n.c.mode.Handshake? && n.c.waiter.Some?
    ensures Feed(2, [], n.consumed) == Fed(n.replies, n.c.buffer)
  {
    hide ParseFrames, TakeOne;
    assert Frames(2, n.replies) + Frames(4, []) == Frames(2, n.replies);
    assert [] + n.consumed == n.consumed && [] + n.replies == n.replies;
    ParseExact(2, n.replies, n.c.buffer, []);
  }

  // ---------- the answer ----------

  /** Nothing asks again, calls the reader off or ends the handshake. */
  predicate LeftAlone(steps: seq<Step>, ref: nat) {
    forall i :: 0 <= i < |steps| ==> !steps[i].DoRecv? && !steps[i].Complete? && steps[i] != DropRecv(ref)
  }

  /** The reader still waits with nothing new handed out, or was given one frame, the first after the `before` ones. */
  predicate Waiting(n: Node, ref: nat, before: seq<Octets>) {
    && n.c.mode.Handshake?
    && (if n.c.waiter.Some? then n.c.waiter == Some(ref) && n.replies == before
        else |n.replies| == |before| + 1 && before <= n.replies)
  }

  lemma StepWaits(n: Node, step: Step, ref: nat, before: seq<Octets>)
    requires OpFits(n) && Waiting(n, ref, before) && Enabled(n, step)
    requires !step.DoRecv? && !step.Complete? && step != DropRecv(ref)
    ensures Waiting(Next(n, step), ref, before)
  {
    hide EventTaken, Called, Served, Pumped, Resumed, TakeOne, OpFits;
    if !Reads(step) {
      OthersSameInput(n, step);
    } else if step.TakeEvent? {
      var e := n.s.events[n.seen];
      if e.Data? {
        DataTaken(n, e.bytes);
      } else {
        EventSameInput(n, e);
      }
    } else {
      DropTakes(n, step.ref);
    }
  }

  lemma {:induction false} RunWaits(n: Node, steps: seq<Step>, ref: nat, before: seq<Octets>)
    requires Inv(n) && IsRun(n, steps) && Waiting(n, ref, before) && LeftAlone(steps, ref)
    ensures Waiting(After(n, steps), ref, before) && Inv(After(n, steps))
    decreases |steps|
  {
    hide D.Inv, Flows, CreditSide, GrantSide, WakeSide, Waiting, Enabled, Next, OpFits;
    if steps != [] {
      StepWaits(n, steps[0], ref, before);
      StepKeepsInv(n, steps[0]);
      RunWaits(Next(n, steps[0]), steps[1..], ref, before);
    }
  }

  /** A blocked reader gets the first whole frame that comes in, however it is cut up and whatever else happens: while
      the bytes taken in hold none beyond those already handed out the reader waits, and afterwards it has that frame
      and nothing else was handed out. */
  lemma FirstFrameAnswers(n: Node, ref: nat, steps: seq<Step>)
    requires Reachable(n) && n.c.mode.Handshake? && n.c.waiter == Some(ref)
    requires IsRun(n, steps) && LeftAlone(steps, ref)
    ensures var n' := After(n, steps);
            var frames := Feed(2, [], n'.consumed).packets;
            && n'.c.mode.Handshake? && n.replies <= frames
            && (if frames == n.replies then n'.c.waiter == Some(ref) && n'.replies == n.replies
                else n'.c.waiter.None? && n'.replies == frames[..|n.replies| + 1])
  {
    hide Reachable, IsRun, After, Feed, Inv, LeftAlone;
    ReachableInv(n);
    RunWaits(n, steps, ref, n.replies);
    var n' := After(n, steps);
    InputOf(n');
    if n'.c.waiter.Some? {
      AllHandedOut(n');
    } else {
      HandedOutFirst(n');
    }
  }

  lemma InputOf(n: Node)
    requires Inv(n)
    ensures InputSide(n)
  {
    hide InputOk;
  }

  /** What has been handed out comes first among the whole frames taken in. */
  lemma HandedOutFirst(n: Node)
    requires InputSide(n) && n.c.mode.Handshake?
    ensures n.replies <= Feed(2, [], n.consumed).packets
  {
    hide ParseFrames, TakeOne, Frame, Fits;
    var rest := ParseFrames(2, n.c.buffer, n.replies);
    assert Frames(2, n.replies) + Frames(4, []) == Frames(2, n.replies);
    assert [] + n.consumed == n.consumed && [] + n.replies == n.replies;
    ParseSkips(2, n.replies, n.c.buffer, []);
    ParseReencodes(2, n.c.buffer, n.replies);
  }

  lemma {:induction false} ParseSkips(w: Width, packets: seq<Octets>, rest: Octets, acc: seq<Octets>)
    requires AllFit(w, packets)
    ensures ParseFrames(w, Frames(w, packets) + rest, acc) == ParseFrames(w, rest, acc + packets)
    decreases |packets|
  {
    hide Frame, Fits, ParseFrames;
    if packets == [] {
      assert Frames(w, packets) + rest == rest && acc + packets == acc;
    } else {
      Associative(Frame(w, packets[0]), Frames(w, packets[1..]), rest);
      ParseOne(w, packets[0], Frames(w, packets[1..]) + rest, acc);
      ParseSkips(w, packets[1..], rest, acc + [packets[0]]);
      assert acc + [packets[0]] + packets[1..] == acc + packets;
    }
  }
}
