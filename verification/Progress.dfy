/** No deadlock: if writes complete and events are taken, a stream's runner works off its queue within a bounded number
    of its own steps, announces every byte of credit it owes, and ends a closed stream with its Closed event
    (`native/iroh_discovery/src/dist.rs`, under the controller of `src/iroh_dist_controller.erl`). */
module Progress {
  import opened Octets
  import opened Framing
  import C = Controller
  import D = Carrier
  import N = Node

  // ---------- the runner left to itself ----------

  /** The runner waits for its queue or the network, or has ended. */
  predicate Settled(s: D.Stream) {
    s.phase.Ended? || (s.phase.Selecting? && s.entry.Some? && s.entry.value.commands == [])
  }

  /** Its next step when nothing fails and nothing arrives. */
  function Default(s: D.Stream): (step: D.Step) {
    match s.phase
    case Starting => D.Open
    case Selecting => D.Dequeue
    case Writing(_) => D.WriteDone
    case Written(_) => D.Restore
    case Restored(_) => D.EmitCredit
    case Received(_) => D.Debit
    case Debited(_) => D.EmitData
    case Leaving(_) => D.Remove
    case Removed(_) => D.EmitClosed
    case Ended => D.Dequeue
  }

  function Rank(p: D.Phase): (n: nat) {
    match p
    case Ended => 0
    case Removed(_) => 1
    case Leaving(_) => 2
    case Selecting => 3
    case Starting => 4
    case Restored(_) => 4
    case Debited(_) => 4
    case Written(_) => 5
    case Received(_) => 5
    case Writing(_) => 6
  }

  function Waiting(s: D.Stream): (n: nat) { if s.entry.Some? then |s.entry.value.commands| else 0 }

  /** A bound on the steps left: five for each queued command and a few for the one in hand. */
  function Work(s: D.Stream): (n: nat) { 5 * Waiting(s) + Rank(s.phase) }

  lemma DefaultWorks(s: D.Stream)
    requires D.Inv(s) && !Settled(s)
    ensures D.Enabled(s, Default(s)) && D.Inv(D.Next(s, Default(s))) && Work(D.Next(s, Default(s))) < Work(s)
  {
    DefaultEnabled(s);
    D.StepKeepsInv(s, Default(s));
    hide D.SendSide, D.ReceiveSide, D.TraceShape, D.Accounts;
  }

  lemma DefaultEnabled(s: D.Stream)
    requires D.Inv(s) && !Settled(s)
    ensures D.Enabled(s, Default(s))
  {
    hide D.SendSide, D.ReceiveSide, D.TraceShape, D.Accounts;
  }

  /** The runner's steps until it settles. */
  function Drive(s: D.Stream): (steps: seq<D.Step>)
    requires D.Inv(s)
    decreases Work(s)
  {
    if Settled(s) then [] else
    DefaultWorks(s);
    [Default(s)] + Drive(D.Next(s, Default(s)))
  }

  function Settle(s: D.Stream): (s': D.Stream)
    requires D.Inv(s)
    decreases Work(s)
  {
    if Settled(s) then s else
    DefaultWorks(s);
    Settle(D.Next(s, Default(s)))
  }

  /** The runner settles, by steps of its own, within the bound. */
  lemma {:induction false} DriveSettles(s: D.Stream)
    requires D.Inv(s)
    ensures D.IsRun(s, Drive(s)) && D.After(s, Drive(s)) == Settle(s)
    ensures |Drive(s)| <= Work(s) && Settled(Settle(s)) && D.Inv(Settle(s))
    ensures forall i :: 0 <= i < |Drive(s)| ==> OfRunner(Drive(s)[i])
    decreases Work(s)
  {
    hide D.Inv, D.Next, D.Enabled, Settled, Work, Default;
    if !Settled(s) {
      DefaultWorks(s);
      DefaultOwn(s);
      var rest := D.Next(s, Default(s));
      DriveSettles(rest);
      assert Drive(s)[1..] == Drive(rest);
    }
  }

  predicate OfRunner(step: D.Step) { !(step.ApiSend? || step.ApiCredit? || step.ApiClose?) }

  lemma DefaultOwn(s: D.Stream)
    ensures OfRunner(Default(s))
  {
  }

  // ---------- what it has done by then ----------

  predicate Closing(s: D.Stream) { s.entry.Some? && D.Close in s.entry.value.commands }

  /** One step keeps a live stream live unless it takes a Close, and only adds events. */
  lemma DefaultLives(s: D.Stream)
    requires D.Inv(s) && D.Live(s.phase) && !Settled(s)
    ensures D.Enabled(s, Default(s))
    ensures var s' := D.Next(s, Default(s));
            && s'.accepted == s.accepted && s'.closeMark == s.closeMark && s.events <= s'.events
            && (!Closing(s) ==> D.Live(s'.phase) && !Closing(s'))
            && (Closing(s) ==> (D.Live(s'.phase) && Closing(s')) || s'.phase == D.Leaving(D.LocalClose))
  {
    hide D.SendSide, D.TraceShape;
    DefaultWorks(s);
    if s.phase.Selecting? {
      var q := s.entry.value.commands;
      assert q == [q[0]] + q[1..];
      if q[0].Grant? {
        D.DequeuedGrant(s, q[0].count);
      }
    }
  }

  lemma {:induction false} SettleLives(s: D.Stream)
    requires D.Inv(s) && D.Live(s.phase) && !Closing(s)
    ensures D.Live(Settle(s).phase) && Settle(s).accepted == s.accepted && s.events <= Settle(s).events
    decreases Work(s)
  {
    hide D.Inv, D.Next, D.Enabled, Settled, Work, Default, Closing, D.Live;
    if !Settled(s) {
      DefaultWorks(s);
      DefaultLives(s);
      SettleLives(D.Next(s, Default(s)));
    }
  }

  /** A live stream with no close queued settles with everything accepted written, in order, and its credit announced
      in full. */
  lemma SettleDelivers(s: D.Stream)
    requires D.Inv(s) && D.Live(s.phase) && !Closing(s)
    ensures var s' := Settle(s);
            && s'.phase.Selecting? && s'.written == s.accepted && D.CreditOf(s'.events) == |s.accepted|
            && s.events <= s'.events
  {
    hide Settle, D.TraceShape, D.Accounts;
    DriveSettles(s);
    SettleLives(s);
    Shuffle(Settle(s).written, [], []);
  }

  lemma {:induction false} SettleEnds(s: D.Stream)
    requires D.Inv(s) && s.closeMark.Some?
    requires (D.Live(s.phase) && Closing(s)) || s.phase == D.Leaving(D.LocalClose) || s.phase == D.Removed(D.LocalClose)
    ensures var s' := Settle(s);
            && s'.phase.Ended? && s'.closeMark == s.closeMark && |s'.written| == s.closeMark.value
            && s'.events != [] && s'.events[|s'.events| - 1] == D.Closed(D.LocalClose)
    decreases Work(s)
  {
    DefaultWorks(s);
    var s1 := D.Next(s, Default(s));
    if s.phase.Removed? {
      assert Settled(s1);
    } else {
      if D.Live(s.phase) {
        DefaultLives(s);
      }
      SettleEnds(s1);
    }
  }

  /** Once a close is queued, the stream settles ended: its last event is the local Closed, and what was written is
      exactly what was accepted before the close. */
  lemma CloseCompletes(s: D.Stream)
    requires D.Inv(s) && D.Live(s.phase) && Closing(s)
    ensures var s' := Settle(s);
            && s'.phase.Ended? && s'.events != [] && s'.events[|s'.events| - 1] == D.Closed(D.LocalClose)
            && s.closeMark.Some? && |s'.written| == s.closeMark.value
  {
    hide Settle;
    SettleEnds(s);
  }

  // ---------- the controller is unblocked ----------

  function Daemons(steps: seq<D.Step>): (r: seq<N.Step>) {
    if steps == [] then [] else [N.Daemon(steps[0])] + Daemons(steps[1..])
  }

  lemma {:induction false} DaemonRun(n: N.Node, steps: seq<D.Step>)
    requires D.IsRun(n.s, steps) && forall i :: 0 <= i < |steps| ==> OfRunner(steps[i])
    ensures N.IsRun(n, Daemons(steps)) && N.After(n, Daemons(steps)) == n.(s := D.After(n.s, steps))
    decreases |steps|
  {
    hide D.Next, D.Enabled;
    if steps == [] {
      assert n.(s := n.s) == n;
    } else {
      var n1 := N.Next(n, N.Daemon(steps[0]));
      DaemonRun(n1, steps[1..]);
      assert Daemons(steps)[1..] == Daemons(steps[1..]);
    }
  }

  /** From every reachable state in which the controller rests with its connection up and no close queued, the runner's
      own steps lead, within a bound set by its queue, to a state in which the controller's credit and the credit
      events waiting for it are the whole window. So if output was left behind, a credit event waits. */
  lemma OutputUnblocks(n: N.Node)
    requires N.Reachable(n) && n.phase.Idle? && n.c.mode.Up? && D.Live(n.s.phase) && !Closing(n.s)
    ensures D.Inv(n.s) && |Drive(n.s)| <= Work(n.s) <= 5 * D.COMMAND_QUEUE + 6
    ensures N.IsRun(n, Daemons(Drive(n.s)))
    ensures var n' := N.After(n, Daemons(Drive(n.s)));
            && n' == n.(s := Settle(n.s)) && n.seen <= |n'.s.events|
            && n.c.credit + D.CreditOf(n'.s.events[n.seen..]) == D.CREDIT_WINDOW
            && (n.c.pendingOut != [] ==> D.CreditOf(n'.s.events[n.seen..]) > 0 && N.Enabled(n', N.TakeEvent))
  {
    N.ReachableInv(n);
    var s' := Settle(n.s);
    WorkBounded(n.s);
    DriveSettles(n.s);
    SettleDelivers(n.s);
    DaemonRun(n, Drive(n.s));
    WindowWaits(n, s'.events);
  }

  lemma WorkBounded(s: D.Stream)
    requires D.Inv(s)
    ensures Work(s) <= 5 * D.COMMAND_QUEUE + 6
  {
  }

  /** All credit announced, the controller's own and what waits for it are one window. */
  lemma WindowWaits(n: N.Node, events: seq<D.Event>)
    requires N.Inv(n) && n.phase.Idle? && n.c.mode.Up?
    requires n.s.events <= events && D.CreditOf(events) == |n.s.accepted|
    ensures n.seen <= |events| && n.c.credit + D.CreditOf(events[n.seen..]) == D.CREDIT_WINDOW
    ensures n.c.pendingOut != [] ==> D.CreditOf(events[n.seen..]) > 0
  {
    hide N.Flows, N.GrantSide, D.Inv;
    N.CreditOfPrefix(events, n.seen);
    assert events[..n.seen] == n.s.events[..n.seen];
  }

  // ---------- the controller comes to rest ----------

  /** The controller is pumping or waits for the port. */
  predicate Busy(n: N.Node) { n.phase.Flushing? || n.phase.Calling? }

  /** The pump's measure: credit first, then whether the output is empty. */
  function PumpRank(c: C.State): (k: nat) { 2 * c.credit + if c.pendingOut == [] then 1 else 0 }

  /** A bound on the controller's own steps until it rests. */
  function Toil(n: N.Node): (k: nat) {
    match n.phase
    case Idle => 0
    case Exited => 0
    case Flushing => 3 * PumpRank(n.c) + 3
    case Calling(op, reply) =>
      var due := if reply.Awaited? then 1 else 0;
      match op
      case Chunk(_, next, _) => 3 * PumpRank(next) + 4 + due
      case Greet(_) => 1 + due
      case GrantBack(_) => 3 + due
      case Hangup => 1 + due
  }

  /** The pump, a port call being served and its answer being taken. */
  predicate Own(step: N.Step) { step.Pump? || step.Serve? || step.Resume? }

  lemma HeadRanks(c: C.State)
    ensures C.FlushHead(c).Hand? ==> PumpRank(C.FlushHead(c).next) < PumpRank(c)
    ensures C.FlushHead(c).Ask? ==> c.pendingOut == []
  {
    if C.FlushHead(c).Hand? {
      C.HandConserves(c);
    }
  }

  lemma PumpToils(n: N.Node, answer: Option<C.Packet>)
    requires n.phase.Flushing?
    ensures Toil(N.Pumped(n, answer)) < Toil(n)
  {
    hide C.FlushHead, N.TakesTick;
    HeadRanks(n.c);
    if answer.Some? {
      assert |Frame(4, answer.value)| >= 4;
    }
  }

  lemma OwnStepToils(n: N.Node, step: N.Step)
    requires N.Enabled(n, step) && Own(step)
    ensures Toil(N.Next(n, step)) < Toil(n)
  {
    hide N.Pumped, N.OpOk, D.Next, D.CallSend, D.CallCredit, D.CallClose, Frame, Fits, PumpRank;
    if step.Pump? {
      PumpToils(n, step.answer);
    }
  }

  /** While the controller is busy, the other steps that can happen leave its work as it is, or end it. */
  lemma OtherStepWaits(n: N.Node, step: N.Step)
    requires Busy(n) && N.Enabled(n, step) && !Own(step)
    ensures step.Daemon? || step.Notify? || step.Die?
    ensures Toil(N.Next(n, step)) <= Toil(n)
  {
    hide D.Next, PumpRank;
  }

  /** A busy controller can always go on by itself. */
  lemma BusyMoves(n: N.Node)
    requires N.Reachable(n) && Busy(n)
    ensures exists step :: Own(step) && N.Enabled(n, step)
  {
    hide N.Reachable;
    if n.phase.Flushing? {
      assert Own(N.Pump(None)) && N.Enabled(n, N.Pump(None));
    } else {
      N.CallsComplete(n);
      assert Own(N.Serve) && Own(N.Resume);
    }
  }

  /** Busy in every state but perhaps the last. */
  predicate StaysBusy(n: N.Node, steps: seq<N.Step>)
    requires N.IsRun(n, steps)
    decreases |steps|
  {
    steps == [] || (Busy(n) && StaysBusy(N.Next(n, steps[0]), steps[1..]))
  }

  function OwnSteps(steps: seq<N.Step>): (k: nat) {
    if steps == [] then 0 else (if Own(steps[0]) then 1 else 0) + OwnSteps(steps[1..])
  }

  lemma {:induction false} BusyBounded(n: N.Node, steps: seq<N.Step>)
    requires N.IsRun(n, steps) && StaysBusy(n, steps)
    ensures OwnSteps(steps) + Toil(N.After(n, steps)) <= Toil(n)
    decreases |steps|
  {
    hide N.Enabled, N.Next, Toil, Own, Busy;
    if steps != [] {
      if Own(steps[0]) {
        OwnStepToils(n, steps[0]);
      } else {
        OtherStepWaits(n, steps[0]);
      }
      BusyBounded(N.Next(n, steps[0]), steps[1..]);
    }
  }

  lemma ToilBounded(n: N.Node)
    requires N.Inv(n)
    ensures Toil(n) <= 6 * D.CREDIT_WINDOW + 8
  {
    hide N.Flows, D.Inv, N.GrantSide, N.WakeSide, Frame, Fits;
  }

  /** Whatever the VM offers and however other processes interleave: in every run the controller comes to rest, or ends,
      within a bounded number of its own steps, and until then one is always possible. */
  lemma PumpComesToRest(n: N.Node, steps: seq<N.Step>)
    requires N.Reachable(n) && N.IsRun(n, steps) && StaysBusy(n, steps)
    ensures OwnSteps(steps) <= 6 * D.CREDIT_WINDOW + 8
    ensures Busy(N.After(n, steps)) ==> exists step :: Own(step) && N.Enabled(N.After(n, steps), step)
  {
    hide N.Reachable, N.IsRun, N.After, N.Inv, Toil, Own, Busy;
    N.ReachableInv(n);
    BusyBounded(n, steps);
    ToilBounded(n);
    N.RunReaches(n, steps);
    if Busy(N.After(n, steps)) {
      BusyMoves(N.After(n, steps));
    }
  }
}
