/** Request correlation of `lib/elixir_rpc/iroh_discovery/port.ex`: the pending table and the callbacks that answer
    callers, over every interleaving of requests, responses, timeouts and the exit of the port. */
module PortClient {
  import opened Octets

  type Caller = nat
  type Id = nat

  /** What a caller is told. `Answered` and `Refused` carry the daemon's reply. */
  datatype Reply =
    | Answered(result: Octets)
    | Refused(error: Octets)
    | MalformedResponse
    | Timeout
    | PortExit(status: nat)

  datatype Call = Call(from: Caller, shutdown: bool)

  /** The server's state; `alive` is whether the process still runs. */
  datatype Client = Client(nextId: Id, pending: map<Id, Call>, alive: bool)

  /** What a decoded payload of the port amounts to. */
  datatype Payload =
    | Event
    | ResponseOk(id: Id, result: Octets)
    | ResponseError(id: Id, error: Octets)
    | ResponseOther(id: Id)
    | Garbage

  /** `GenServer.reply` to the caller of request `id`. */
  datatype Sent = Sent(id: Id, from: Caller, reply: Reply)

  datatype Turn = Turn(client: Client, sent: seq<Sent>)

  // ---------- the callbacks ----------

  /** A request whose payload encodes. Writing it to a port that is already closed raises, which ends the server. */
  function Request(c: Client, open: bool, from: Caller, shutdown: bool): (t: Turn) {
    if !open then Turn(c.(alive := false), [])
    else Turn(c.(nextId := c.nextId + 1, pending := c.pending[c.nextId := Call(from, shutdown)]), [])
  }

  /** `reply/3`: the first answer to a request removes it; an answer to `shutdown` also stops the server. */
  function Answer(c: Client, id: Id, reply: Reply): (t: Turn) {
    if id !in c.pending then Turn(c, []) else
    var call := c.pending[id];
    Turn(c.(pending := c.pending - {id}, alive := c.alive && !call.shutdown), [Sent(id, call.from, reply)])
  }

  /** `handle_response`. */
  function Respond(c: Client, p: Payload): (t: Turn) {
    match p
    case Event => Turn(c, [])
    case ResponseOk(id, result) => Answer(c, id, Answered(result))
    case ResponseError(id, error) => Answer(c, id, Refused(error))
    case ResponseOther(id) => Answer(c, id, MalformedResponse)
    case Garbage => Turn(c, [])
  }

  /** A timer fires; unlike an answer it never stops the server. */
  function Expire(c: Client, id: Id): (t: Turn) {
    if id !in c.pending then Turn(c, [])
    else Turn(c.(pending := c.pending - {id}), [Sent(id, c.pending[id].from, Timeout)])
  }

  function ReplyAll(ids: seq<Id>, pending: map<Id, Call>, status: nat): (sent: seq<Sent>)
    requires forall id :: id in ids ==> id in pending
  {
    if ids == [] then []
    else [Sent(ids[0], pending[ids[0]].from, PortExit(status))] + ReplyAll(ids[1..], pending, status)
  }

  /** `order` lists the pending requests once each, in whatever order the map yields them. */
  ghost predicate Lists(order: seq<Id>, pending: map<Id, Call>) {
    && (forall i, j :: 0 <= i < j < |order| ==> order[i] != order[j])
    && (forall id :: id in order <==> id in pending)
  }

  /** The port exits: every caller still waiting is answered, and the server stops. */
  function PortExits(c: Client, status: nat, order: seq<Id>): (t: Turn)
    requires forall id :: id in order ==> id in c.pending
  {
    Turn(c.(pending := map[], alive := false), ReplyAll(order, c.pending, status))
  }

  // ---------- runs ----------

  /** A client with the requests it has taken and the replies it has sent; `open` is whether its port is. */
  datatype System = System(client: Client, open: bool, issued: map<Id, Call>, replies: seq<Sent>)

  datatype Step =
    | Ask(from: Caller, shutdown: bool)
    | Receive(payload: Payload)
    | Fire(id: Id)
    | Close                              // the port closes; its exit message is on its way
    | Exit(status: nat, order: seq<Id>)

  function TurnOf(c: Client, open: bool, step: Step): (t: Turn)
    requires step.Exit? ==> forall id :: id in step.order ==> id in c.pending
  {
    match step
    case Ask(from, shutdown) => Request(c, open, from, shutdown)
    case Receive(p) => Respond(c, p)
    case Fire(id) => Expire(c, id)
    case Close => Turn(c, [])
    case Exit(status, order) => PortExits(c, status, order)
  }

  ghost predicate Enabled(s: System, step: Step) {
    && s.client.alive
    && (step.Close? ==> s.open)
    && (step.Exit? ==> !s.open && Lists(step.order, s.client.pending))
  }

  ghost function Next(s: System, step: Step): (s': System)
    requires Enabled(s, step)
  {
    var t := TurnOf(s.client, s.open, step);
    System(t.client, s.open && !step.Close?,
           if step.Ask? && s.open then s.issued[s.client.nextId := Call(step.from, step.shutdown)] else s.issued,
           s.replies + t.sent)
  }

  ghost predicate IsRun(s: System, steps: seq<Step>)
    decreases |steps|
  {
    steps == [] || (Enabled(s, steps[0]) && IsRun(Next(s, steps[0]), steps[1..]))
  }

  ghost function After(s: System, steps: seq<Step>): (s': System)
    requires IsRun(s, steps)
    decreases |steps|
  {
    if steps == [] then s else After(Next(s, steps[0]), steps[1..])
  }

  ghost predicate Started(s: System) {
    && s.client.nextId == 1 && s.client.pending == map[] && s.client.alive && s.open
    && s.issued == map[] && s.replies == []
  }

  ghost predicate Reachable(s: System) {
    exists s0: System, steps: seq<Step> :: Started(s0) && IsRun(s0, steps) && After(s0, steps) == s
  }

  // ---------- what every run keeps ----------

  ghost predicate Replied(replies: seq<Sent>, id: Id) { exists i :: 0 <= i < |replies| && replies[i].id == id }

  /** Requests are numbered below the next number, and each is pending or answered but not both; each reply answers an
      issued request, to its own caller, and no request is answered twice. */
  ghost predicate Inv(s: System) {
    && (forall id :: id in s.issued ==> id < s.client.nextId)
    && (forall id :: id in s.client.pending ==> id in s.issued && s.client.pending[id] == s.issued[id])
    && (forall id :: id in s.issued ==> (id in s.client.pending <==> !Replied(s.replies, id)))
    && (forall i :: 0 <= i < |s.replies| ==> s.replies[i].id in s.issued
                                             && s.replies[i].from == s.issued[s.replies[i].id].from)
    && (forall i, j :: 0 <= i < j < |s.replies| ==> s.replies[i].id != s.replies[j].id)
  }

  lemma {:induction false} ReplyAllIs(ids: seq<Id>, pending: map<Id, Call>, status: nat)
    requires forall id :: id in ids ==> id in pending
    ensures var sent := ReplyAll(ids, pending, status);
            && |sent| == |ids|
            && forall i :: 0 <= i < |ids| ==> sent[i] == Sent(ids[i], pending[ids[i]].from, PortExit(status))
  {
    if ids != [] {
      ReplyAllIs(ids[1..], pending, status);
      assert forall i :: 1 <= i < |ids| ==> ids[i] == ids[1..][i - 1];
    }
  }

  lemma RepliedAppend(a: seq<Sent>, b: seq<Sent>, id: Id)
    ensures Replied(a + b, id) <==> Replied(a, id) || Replied(b, id)
  {
    if Replied(b, id) {
      var i :| 0 <= i < |b| && b[i].id == id;
      assert (a + b)[|a| + i].id == id;
    }
    if Replied(a, id) {
      var i :| 0 <= i < |a| && a[i].id == id;
      assert (a + b)[i].id == id;
    }
  }

  /** Answering some pending requests once each, and no others, keeps the invariant. */
  lemma AnswersKeepInv(s: System, client: Client, sent: seq<Sent>)
    requires Inv(s) && client.nextId == s.client.nextId
    requires forall i :: 0 <= i < |sent| ==>
               sent[i].id in s.client.pending && sent[i].from == s.client.pending[sent[i].id].from
    requires forall i, j :: 0 <= i < j < |sent| ==> sent[i].id != sent[j].id
    requires forall id :: id in client.pending <==> id in s.client.pending && !Replied(sent, id)
    requires forall id :: id in client.pending ==> client.pending[id] == s.client.pending[id]
    ensures forall open :: Inv(System(client, open, s.issued, s.replies + sent))
  {
    var all := s.replies + sent;
    forall id | id in s.issued
      ensures id in client.pending <==> !Replied(all, id)
    {
      RepliedAppend(s.replies, sent, id);
    }
    forall i, j | 0 <= i < j < |all|
      ensures all[i].id != all[j].id
    {
      if i < |s.replies| <= j {
        assert Replied(s.replies, all[i].id);
      }
    }
  }

  lemma RespondKeepsInv(s: System, id: Id, reply: Reply)
    requires Inv(s)
    ensures var t := Answer(s.client, id, reply); Inv(System(t.client, s.open, s.issued, s.replies + t.sent))
    ensures var t := Expire(s.client, id); Inv(System(t.client, s.open, s.issued, s.replies + t.sent))
  {
    hide Inv;
    var c := s.client;
    assert s.replies + [] == s.replies;
    if id in c.pending {
      var answer, timeout := Sent(id, c.pending[id].from, reply), Sent(id, c.pending[id].from, Timeout);
      assert [answer][0].id == id && [timeout][0].id == id;
      AnswersKeepInv(s, Answer(c, id, reply).client, [answer]);
      AnswersKeepInv(s, Expire(c, id).client, [timeout]);
    } else {
      assert System(c, s.open, s.issued, s.replies) == s;
    }
  }

  lemma ExitKeepsInv(s: System, status: nat, order: seq<Id>)
    requires Inv(s) && Lists(order, s.client.pending)
    ensures var t := PortExits(s.client, status, order); Inv(System(t.client, s.open, s.issued, s.replies + t.sent))
  {
    hide Inv;
    var t := PortExits(s.client, status, order);
    ReplyAllIs(order, s.client.pending, status);
    forall id | id in s.client.pending
      ensures Replied(t.sent, id)
    {
      var i :| 0 <= i < |order| && order[i] == id;
      assert t.sent[i].id == id;
    }
    AnswersKeepInv(s, t.client, t.sent);
  }

  lemma AskKeepsInv(s: System, from: Caller, shutdown: bool)
    requires Inv(s)
    ensures var t := Request(s.client, true, from, shutdown);
            Inv(System(t.client, true, s.issued[s.client.nextId := Call(from, shutdown)], s.replies + t.sent))
  {
    assert s.replies + [] == s.replies;
    assert s.client.nextId !in s.issued;
  }

  /** Whether the server and its port still run does not matter to the books. */
  lemma StopKeepsInv(s: System)
    requires Inv(s)
    ensures forall alive, open ::
              Inv(System(s.client.(alive := alive), open, s.issued, s.replies)) && s.replies + [] == s.replies
  {
  }

  lemma StepKeepsInv(s: System, step: Step)
    requires Inv(s) && Enabled(s, step)
    ensures Inv(Next(s, step))
  {
    hide Inv, Answer, Expire, PortExits, Lists;
    match step
    case Ask(from, shutdown) =>
      if s.open {
        AskKeepsInv(s, from, shutdown);
      } else {
        StopKeepsInv(s);
      }
    case Close => StopKeepsInv(s);
    case Fire(id) => RespondKeepsInv(s, id, Timeout);
    case Exit(status, order) => ExitKeepsInv(s, status, order);
    case Receive(p) =>
      assert s.replies + [] == s.replies;
      assert System(s.client, s.open, s.issued, s.replies) == s;
      match p
      case Event =>
      case Garbage =>
      case ResponseOk(id, result) => RespondKeepsInv(s, id, Answered(result));
      case ResponseError(id, error) => RespondKeepsInv(s, id, Refused(error));
      case ResponseOther(id) => RespondKeepsInv(s, id, MalformedResponse);
  }

  lemma {:induction false} RunKeepsInv(s: System, steps: seq<Step>)
    requires Inv(s) && IsRun(s, steps)
    ensures Inv(After(s, steps))
    decreases |steps|
  {
    hide Inv, Enabled, Next;
    if steps != [] {
      StepKeepsInv(s, steps[0]);
      RunKeepsInv(Next(s, steps[0]), steps[1..]);
    }
  }

  lemma ReachableInv(s: System)
    requires Reachable(s)
    ensures Inv(s)
  {
    hide IsRun, After;
    var s0, steps :| Started(s0) && IsRun(s0, steps) && After(s0, steps) == s;
    assert Inv(s0);
    RunKeepsInv(s0, steps);
  }

  // ---------- which answer ----------

  /** What a step would tell the caller of request `id`. */
  function Cause(step: Step, id: Id): (r: Option<Reply>) {
    match step
    case Ask(_, _) => None
    case Close => None
    case Fire(k) => if k == id then Some(Timeout) else None
    case Exit(status, _) => Some(PortExit(status))
    case Receive(p) =>
      match p
      case Event => None
      case Garbage => None
      case ResponseOk(k, result) => if k == id then Some(Answered(result)) else None
      case ResponseError(k, error) => if k == id then Some(Refused(error)) else None
      case ResponseOther(k) => if k == id then Some(MalformedResponse) else None
  }

  /** The first thing that happens to request `id` once it is taken, if requests are numbered from `next`. */
  function Fate(next: Id, steps: seq<Step>, id: Id): (r: Option<Reply>)
    decreases |steps|
  {
    if steps == [] then None
    else if steps[0].Ask? then Fate(next + 1, steps[1..], id)
    else if id < next && Cause(steps[0], id).Some? then Cause(steps[0], id)
    else Fate(next, steps[1..], id)
  }

  /** The reply sent for `id`, if any. */
  ghost predicate ToldOf(replies: seq<Sent>, id: Id, reply: Reply) {
    exists i :: 0 <= i < |replies| && replies[i].id == id && replies[i].reply == reply
  }

  /** A step answers a pending request exactly as its cause says, and otherwise leaves it pending. */
  lemma StepAnswers(s: System, step: Step, id: Id)
    requires Inv(s) && Enabled(s, step) && id in s.client.pending
    ensures Cause(step, id).None? ==> id in Next(s, step).client.pending
    ensures Cause(step, id).Some? ==> ToldOf(Next(s, step).replies, id, Cause(step, id).value)
  {
    hide Inv;
    var s', t := Next(s, step), TurnOf(s.client, s.open, step);
    if Cause(step, id).Some? {
      if step.Exit? {
        ReplyAllIs(step.order, s.client.pending, step.status);
        var i :| 0 <= i < |step.order| && step.order[i] == id;
        assert s'.replies[|s.replies| + i] == t.sent[i];
      } else {
        assert s'.replies[|s.replies|] == t.sent[0];
      }
    }
  }

  lemma NextIdOf(s: System, step: Step)
    requires Enabled(s, step)
    ensures Next(s, step).client.nextId == if step.Ask? && s.open then s.client.nextId + 1 else s.client.nextId
    ensures step.Ask? && !s.open ==> !Next(s, step).client.alive
    ensures s.replies <= Next(s, step).replies
    ensures forall id :: id >= s.client.nextId && !(step.Ask? && id == s.client.nextId) && id !in s.client.pending ==>
              id !in Next(s, step).client.pending
    ensures step.Ask? && s.open ==> s.client.nextId in Next(s, step).client.pending
  {
    hide ReplyAll;
  }

  lemma {:induction false} RepliesGrow(s: System, steps: seq<Step>)
    requires IsRun(s, steps)
    ensures s.replies <= After(s, steps).replies
    decreases |steps|
  {
    hide Enabled, Next;
    if steps != [] {
      NextIdOf(s, steps[0]);
      RepliesGrow(Next(s, steps[0]), steps[1..]);
    }
  }

  lemma {:induction false} FateHolds(s: System, steps: seq<Step>, id: Id)
    requires Inv(s) && IsRun(s, steps) && (id in s.client.pending || id >= s.client.nextId)
    ensures var fate := Fate(s.client.nextId, steps, id);
            fate.Some? ==> ToldOf(After(s, steps).replies, id, fate.value)
    ensures Fate(s.client.nextId, steps, id).None? ==>
              id in After(s, steps).client.pending || id >= After(s, steps).client.nextId
    decreases |steps|
  {
    hide Enabled, Next, Cause;
    if steps != [] {
      var step, s1 := steps[0], Next(s, steps[0]);
      StepKeepsInv(s, step);
      NextIdOf(s, step);
      AskHasNoCause(step, id);
      if id in s.client.pending {
        StepAnswers(s, step, id);
        IssuedBefore(s, id);
      }
      if id in s.client.pending && !step.Ask? && Cause(step, id).Some? {
        RepliesGrow(s1, steps[1..]);
        ToldStays(s1.replies, After(s1, steps[1..]).replies, id, Cause(step, id).value);
      } else {
        FateHolds(s1, steps[1..], id);
        if !s1.client.alive {
          StoppedRun(s1, steps[1..]);
        }
      }
    }
  }

  lemma StoppedRun(s: System, steps: seq<Step>)
    requires IsRun(s, steps) && !s.client.alive
    ensures steps == []
  {
  }

  lemma AskHasNoCause(step: Step, id: Id)
    ensures step.Ask? ==> Cause(step, id).None?
  {
  }

  lemma IssuedBefore(s: System, id: Id)
    requires Inv(s) && id in s.client.pending
    ensures id < s.client.nextId
  {
  }

  lemma ToldStays(a: seq<Sent>, b: seq<Sent>, id: Id, reply: Reply)
    requires ToldOf(a, id, reply) && a <= b
    ensures ToldOf(b, id, reply)
  {
    var i :| 0 <= i < |a| && a[i].id == id && a[i].reply == reply;
    assert b[i] == a[i];
  }

  // ---------- results ----------

  /** Whatever the order of responses, timeouts, late responses and exit: the number of a new request was never used,
      no request is answered twice, and each reply goes to the caller of its request. */
  lemma AnsweredAtMostOnce(s: System, i: nat, j: nat)
    requires Reachable(s) && i < |s.replies| && j < |s.replies|
    ensures s.client.nextId !in s.issued
    ensures s.replies[i].id == s.replies[j].id ==> i == j
    ensures s.replies[i].id in s.issued && s.replies[i].from == s.issued[s.replies[i].id].from
  {
    hide Reachable;
    ReachableInv(s);
    assert i < j || j < i || i == j;
  }

  /** The pending table is exactly the requests taken and not yet answered. */
  lemma PendingExact(s: System, id: Id)
    requires Reachable(s)
    ensures id in s.client.pending <==> id in s.issued && !Replied(s.replies, id)
    ensures id in s.client.pending ==> s.client.pending[id] == s.issued[id]
  {
    hide Reachable;
    ReachableInv(s);
  }

  /** When the port exits, every request that was ever taken has been answered. */
  lemma ExitAnswersAll(s: System, status: nat, order: seq<Id>, id: Id)
    requires Reachable(s) && Enabled(s, Exit(status, order)) && id in s.issued
    ensures Replied(Next(s, Exit(status, order)).replies, id)
  {
    hide Reachable, ReplyAll;
    ReachableInv(s);
    StepKeepsInv(s, Exit(status, order));
  }

  /** The answer to `shutdown` stops the server at once, so its other callers are left without an answer exactly if
      there are any. */
  lemma ShutdownLeaves(s: System, id: Id, reply: Reply, other: Id)
    requires Reachable(s) && id in s.client.pending && s.client.pending[id].shutdown && other in s.issued
    ensures var t := Answer(s.client, id, reply);
            !t.client.alive && (Replied(s.replies + t.sent, other) <==> other == id || other !in s.client.pending)
  {
    hide Reachable;
    ReachableInv(s);
    var t := Answer(s.client, id, reply);
    RepliedAppend(s.replies, t.sent, other);
    assert t.sent[0].id == id;
  }

  /** A caller is told the first of response, timeout and exit that happens after its request, and nothing before. */
  lemma FirstOutcome(s0: System, steps: seq<Step>, id: Id, reply: Reply)
    requires Started(s0) && IsRun(s0, steps) && id in After(s0, steps).issued
    ensures ToldOf(After(s0, steps).replies, id, reply) <==> Fate(1, steps, id) == Some(reply)
  {
    hide IsRun, After, Fate;
    var s := After(s0, steps);
    assert Inv(s0);
    RunKeepsInv(s0, steps);
    ZeroNeverIssued(s0, steps);
    FateHolds(s0, steps, id);
    if ToldOf(s.replies, id, reply) {
      var i :| 0 <= i < |s.replies| && s.replies[i].id == id && s.replies[i].reply == reply;
      assert Replied(s.replies, id);
      if Fate(1, steps, id).Some? {
        var j :| 0 <= j < |s.replies| && s.replies[j].id == id && s.replies[j].reply == Fate(1, steps, id).value;
        assert i < j || j < i || i == j;
      }
    }
  }

  /** Requests are numbered from one. */
  lemma {:induction false} ZeroNeverIssued(s: System, steps: seq<Step>)
    requires IsRun(s, steps) && s.client.nextId > 0 && 0 !in s.issued
    ensures 0 !in After(s, steps).issued
    decreases |steps|
  {
    if steps != [] {
      NextIdOf(s, steps[0]);
      ZeroNeverIssued(Next(s, steps[0]), steps[1..]);
    }
  }

  /** The server stops if and only if the port's exit is handled, a request meets a closed port, or the response names a
      pending `shutdown`; a timeout never stops it. */
  lemma StopsExactly(s: System, step: Step)
    requires Enabled(s, step)
    ensures !Next(s, step).client.alive <==>
              || step.Exit? || (step.Ask? && !s.open)
              || exists id :: id in NamedBy(step) && id in s.client.pending && s.client.pending[id].shutdown
  {
    hide ReplyAll;
    if step.Receive? {
      match step.payload
      case ResponseOk(k, _) => assert k in NamedBy(step);
      case ResponseError(k, _) => assert k in NamedBy(step);
      case ResponseOther(k) => assert k in NamedBy(step);
      case Event =>
      case Garbage =>
    }
  }

  /** The request a response from the port names. */
  function NamedBy(step: Step): (ids: set<Id>) {
    if !step.Receive? then {} else
    match step.payload
    case ResponseOk(k, _) => {k}
    case ResponseError(k, _) => {k}
    case ResponseOther(k) => {k}
    case _ => {}
  }

  /** When the server stops, every caller has been answered if and only if it stops on the port's exit, or nothing is
      pending besides the request that the stopping response names: a request handled after the port has closed but
      before its exit message, and the answer to `shutdown`, leave the others without one. */
  lemma StopAnswersAllExactly(s: System, step: Step)
    requires Reachable(s) && Enabled(s, step) && !Next(s, step).client.alive
    ensures (forall id :: id in Next(s, step).issued ==> Replied(Next(s, step).replies, id))
       <==> step.Exit? || s.client.pending.Keys <= NamedBy(step)
  {
    hide Reachable;
    ReachableInv(s);
    StepKeepsInv(s, step);
    var s' := Next(s, step);
    forall id | id in s.client.pending
      ensures Replied(s'.replies, id) <==> Cause(step, id).Some?
    {
      StepAnswers(s, step, id);
    }
    IssuedGrows(s, step);
    hide Inv, Next, Cause, NamedBy;
    forall id
      ensures !step.Exit? && !step.Fire? ==> (Cause(step, id).Some? <==> id in NamedBy(step))
      ensures step.Exit? ==> Cause(step, id).Some?
    {
      CauseNames(step, id);
    }
    if step.Fire? {
      FireGoesOn(s, step);
    }
  }

  lemma CauseNames(step: Step, id: Id)
    ensures !step.Exit? && !step.Fire? ==> (Cause(step, id).Some? <==> id in NamedBy(step))
    ensures step.Exit? ==> Cause(step, id).Some?
  {
  }

  lemma FireGoesOn(s: System, step: Step)
    requires Enabled(s, step) && step.Fire?
    ensures Next(s, step).client.alive
  {
  }

  lemma IssuedGrows(s: System, step: Step)
    requires Inv(s) && Enabled(s, step) && !Next(s, step).client.alive
    ensures Next(s, step).issued == s.issued
    ensures forall id :: id in s.issued && id !in s.client.pending ==> Replied(Next(s, step).replies, id)
  {
    hide ReplyAll;
    forall id | id in s.issued && id !in s.client.pending
      ensures Replied(Next(s, step).replies, id)
    {
      RepliedAppend(s.replies, TurnOf(s.client, s.open, step).sent, id);
    }
  }

  /** A run that leaves a caller without an answer: a second caller's `shutdown` is answered first. */
  lemma ShutdownExample(s0: System)
    requires Started(s0)
    ensures var steps := [Ask(7, false), Ask(8, true), Receive(ResponseOk(2, []))];
            && IsRun(s0, steps)
            && !After(s0, steps).client.alive && After(s0, steps).client.pending == map[1 := Call(7, false)]
            && !Replied(After(s0, steps).replies, 1)
  {
    var steps := [Ask(7, false), Ask(8, true), Receive(ResponseOk(2, []))];
    var s1 := Next(s0, Ask(7, false));
    var s2 := Next(s1, Ask(8, true));
    var s3 := Next(s2, Receive(ResponseOk(2, [])));
    assert steps[1..] == [Ask(8, true), Receive(ResponseOk(2, []))];
    assert steps[1..][1..] == [Receive(ResponseOk(2, []))];
    assert steps[1..][1..][1..] == [];
    assert IsRun(s3, []) && After(s3, []) == s3;
    assert s3.replies == [Sent(2, 8, Answered([]))];
    assert s3.client.pending == map[1 := Call(7, false)];
  }

  /** And one in which a request meets a closed port. */
  lemma ClosedPortExample(s0: System)
    requires Started(s0)
    ensures var steps := [Ask(7, false), Close, Ask(8, false)];
            && IsRun(s0, steps)
            && !After(s0, steps).client.alive && After(s0, steps).client.pending == map[1 := Call(7, false)]
            && !Replied(After(s0, steps).replies, 1)
  {
    var steps := [Ask(7, false), Close, Ask(8, false)];
    var s1 := Next(s0, Ask(7, false));
    var s2 := Next(s1, Close);
    var s3 := Next(s2, Ask(8, false));
    assert steps[1..] == [Close, Ask(8, false)];
    assert steps[1..][1..] == [Ask(8, false)];
    assert steps[1..][1..][1..] == [];
    assert IsRun(s3, []) && After(s3, []) == s3;
    assert s3.replies == [];
    assert s3.client.pending == map[1 := Call(7, false)];
  }
}
