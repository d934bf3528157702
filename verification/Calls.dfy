/** What a call of the distribution layer achieves when the daemon's queue has room (`send`, `close` and the handling of
    data in `src/iroh_dist_controller.erl` over `native/iroh_discovery/src/dist.rs`): the whole way from the call to its
    effect on the stream. */
module Calls {
  import opened Octets
  import opened Framing
  import C = Controller
  import D = Carrier
  import opened Node
  import P = Progress
  import E = Ending

  /** The stream is in the table and its queue of 64 commands has room. */
  predicate Room(s: D.Stream) { s.entry.Some? && |s.entry.value.commands| < 64 }

  // ---------- runs ----------

  lemma ThreeSteps(n: Node, a: Step, b: Step, c: Step)
    requires Enabled(n, a) && Enabled(Next(n, a), b) && Enabled(Next(Next(n, a), b), c)
    ensures IsRun(n, [a, b, c]) && After(n, [a, b, c]) == Next(Next(Next(n, a), b), c)
  {
    hide Enabled, Next;
    var n1 := Next(n, a);
    var n2 := Next(n1, b);
    var n3 := Next(n2, c);
    assert [a, b, c][1..] == [b, c] && [b, c][1..] == [c] && [c][1..] == [];
    assert IsRun(n3, []) && After(n3, []) == n3;
    assert IsRun(n2, [c]) && After(n2, [c]) == n3;
    assert IsRun(n1, [b, c]) && After(n1, [b, c]) == n3;
  }

  lemma {:induction false} RunsJoin(n: Node, a: seq<Step>, b: seq<Step>)
    requires IsRun(n, a) && IsRun(After(n, a), b)
    ensures IsRun(n, a + b) && After(n, a + b) == After(After(n, a), b)
    decreases |a|
  {
    hide Enabled, Next;
    if a == [] {
      assert a + b == b;
    } else {
      RunsJoin(Next(n, a[0]), a[1..], b);
      assert (a + b)[1..] == a[1..] + b;
    }
  }

  // ---------- close ----------

  lemma {:induction false} SettleKeepsAccepted(s: D.Stream)
    requires D.Inv(s)
    ensures P.Settle(s).accepted == s.accepted
    decreases P.Work(s)
  {
    hide D.Inv, D.Next, D.Enabled, P.Settled, P.Work, P.Default;
    if !P.Settled(s) {
      P.DefaultWorks(s);
      RunnerKeepsAccepted(s, P.Default(s));
      P.DefaultOwn(s);
      SettleKeepsAccepted(D.Next(s, P.Default(s)));
    }
  }

  lemma RunnerKeepsAccepted(s: D.Stream, d: D.Step)
    requires D.Enabled(s, d)
    ensures P.OfRunner(d) ==> D.Next(s, d).accepted == s.accepted
  {
  }

  lemma CloseAccepted(n: Node)
    requires n.phase.Idle? && Room(n.s) && n.s.closeMark.None?
    ensures Enabled(n, DoClose) && Enabled(Next(n, DoClose), Serve)
    ensures Enabled(Next(Next(n, DoClose), Serve), Resume)
    ensures var n3 := Next(Next(Next(n, DoClose), Serve), Resume);
            && n3.phase.Exited? && n3.s.phase == n.s.phase && n3.s.accepted == n.s.accepted
            && P.Closing(n3.s) && n3.s.closeMark == Some(|n.s.accepted|)
  {
    hide Frame, Fits, C.FlushHead, C.ConsumeInput, C.Recv, C.PutPackets;
    var q := n.s.entry.value.commands;
    assert (q + [D.Close])[|q|] == D.Close;
  }

  /** `close` ends the stream: from every reachable state in which the runner goes on and the queue has room, the call,
      its answer and then the runner's own steps lead to a stream that is gone from the table, whose last event is the
      local Closed, and that has written exactly what was accepted before the close. */
  lemma CloseEnds(n: Node) returns (steps: seq<Step>)
    requires Reachable(n) && n.phase.Idle? && D.Live(n.s.phase) && Room(n.s)
    ensures IsRun(n, steps) && 3 <= |steps| <= 3 + 5 * 64 + 6 && steps[..3] == [DoClose, Serve, Resume]
    ensures forall i :: 3 <= i < |steps| ==> steps[i].Daemon?
    ensures var n' := After(n, steps);
            && n'.phase.Exited? && n'.s.phase.Ended? && n'.s.entry.None? && n'.s.written == n.s.accepted
            && n'.s.events != [] && n'.s.events[|n'.s.events| - 1] == D.Closed(D.LocalClose)
  {
    hide Reachable, IsRun, After, Enabled, Next, Books, Flows;
    ReachableInv(n);
    E.ReachableClose(n);
    CloseAccepted(n);
    ThreeSteps(n, DoClose, Serve, Resume);
    var n3 := After(n, [DoClose, Serve, Resume]);
    RunReaches(n, [DoClose, Serve, Resume]);
    ReachableInv(n3);
    var tail := P.Daemons(P.Drive(n3.s));
    Settled(n3);
    RunsJoin(n, [DoClose, Serve, Resume], tail);
    steps := [DoClose, Serve, Resume] + tail;
  }

  lemma Settled(n: Node)
    requires Inv(n) && D.Live(n.s.phase) && P.Closing(n.s) && n.s.closeMark == Some(|n.s.accepted|)
    ensures var tail := P.Daemons(P.Drive(n.s));
            && IsRun(n, tail) && |tail| <= 5 * 64 + 6 && forall i :: 0 <= i < |tail| ==> tail[i].Daemon?
    ensures var n' := After(n, P.Daemons(P.Drive(n.s)));
            && n'.phase == n.phase && n'.s.phase.Ended? && n'.s.entry.None? && n'.s.written == n.s.accepted
            && n'.s.events != [] && n'.s.events[|n'.s.events| - 1] == D.Closed(D.LocalClose)
  {
    hide IsRun, After, Books, Flows, P.Settle, P.Drive, P.Work, D.Accounts, D.SendSide, D.ReceiveSide, D.TraceShape;
    P.DriveSettles(n.s);
    P.WorkBounded(n.s);
    P.CloseCompletes(n.s);
    SettleKeepsAccepted(n.s);
    P.DaemonRun(n, P.Drive(n.s));
    DaemonsLength(P.Drive(n.s));
  }

  lemma {:induction false} DaemonsLength(steps: seq<D.Step>)
    ensures |P.Daemons(steps)| == |steps| && forall i :: 0 <= i < |steps| ==> P.Daemons(steps)[i].Daemon?
  {
    if steps != [] {
      DaemonsLength(steps[1..]);
    }
  }

  // ---------- send ----------

  /** A handshake message is sent if it fits the credit: the daemon accepts its two length bytes and its payload, behind
      everything accepted before, and the controller is charged for them. */
  lemma GreetingGoesOut(n: Node, payload: Octets)
    requires Reachable(n) && n.phase.Idle? && n.c.mode.Handshake? && Room(n.s)
    requires |payload| < 65536 && |payload| + 2 <= n.c.credit
    ensures IsRun(n, [DoSend(payload), Serve, Resume])
    ensures var n' := After(n, [DoSend(payload), Serve, Resume]);
            && n'.phase.Idle? && n'.greetings == n.greetings + [payload]
            && n'.s.accepted == n.s.accepted + ([|payload| / 256, |payload| % 256] + payload)
            && n'.c == n.c.(credit := n.c.credit - (|payload| + 2), sendCount := n.c.sendCount + 1)
  {
    hide Reachable, IsRun, After, Inv;
    FrameTwo(payload);
    var n1 := Next(n, DoSend(payload));
    assert n1 == n.(phase := Request(Greet(payload)));
    StepReaches(n, DoSend(payload));
    SendNeverExhausted(n1);
    ThreeSteps(n, DoSend(payload), Serve, Resume);
  }

  lemma FrameTwo(payload: Octets)
    requires |payload| < 65536
    ensures Fits(2, payload) && Frame(2, payload) == [|payload| / 256, |payload| % 256] + payload
  {
    PowValues();
    FrameLayout(payload);
  }

  /** Otherwise nothing happens, unless it is too long to be a handshake message at all. */
  lemma GreetingRefused(n: Node, payload: Octets)
    requires n.phase.Idle? && n.c.mode.Handshake? && |payload| + 2 > n.c.credit && |payload| < 65536
    ensures Enabled(n, DoSend(payload)) && Next(n, DoSend(payload)) == n
  {
    FrameTwo(payload);
  }

  // ---------- data ----------

  /** Data taken in is granted back at once: the event, the call and its answer leave the controller idle, with as much
      granted as was taken. */
  lemma DataGrantedBack(n: Node)
    requires Reachable(n) && n.phase.Idle? && Room(n.s)
    requires n.seen < |n.s.events| && n.s.events[n.seen].Data?
    ensures IsRun(n, [TakeEvent, Serve, Resume])
    ensures var n', k := After(n, [TakeEvent, Serve, Resume]), |n.s.events[n.seen].bytes|;
            && n'.phase.Idle? && n'.seen == n.seen + 1 && n'.s.granted == n.s.granted + k
            && n'.consumed == n.consumed + n.s.events[n.seen].bytes
  {
    hide Reachable, IsRun, After, Inv, C.ConsumeInput;
    var bytes := n.s.events[n.seen].bytes;
    ReachableInv(n);
    DataBounded(n);
    var n1 := Next(n, TakeEvent);
    assert n1.phase == Request(GrantBack(|bytes|)) && n1.s == n.s;
    StepReaches(n, TakeEvent);
    GrantNeverInvalid(n1);
    ThreeSteps(n, TakeEvent, Serve, Resume);
  }

  lemma DataBounded(n: Node)
    requires Inv(n) && n.seen < |n.s.events| && n.s.events[n.seen].Data?
    ensures 0 < |n.s.events[n.seen].bytes| <= D.DATA_CHUNK
  {
    hide Books, Flows;
    DataSize(n.s, n.seen);
  }
}
